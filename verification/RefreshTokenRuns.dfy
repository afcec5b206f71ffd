/**
 Concurrent calls of `use`: finding, creating and revoking are separate steps that interleave with those of other calls.
*/
module RefreshTokenRuns {
  import opened Options
  import opened RefreshTokens

  datatype Rotation = Rotation(at: Instant, next: Id)

  /** What is known about an issued token, even after its row is gone: `root` is the token that its sign-in issued. */
  datatype Issued = Issued(
    root: Id, profileId: Id, isMfaEnabled: bool, isSession: bool, issuedAt: Instant, createdAt: Instant,
        rotation: Option<Rotation>)

  /** A call that has read a row it will replace, or has issued the replacement. */
  datatype Call = Replacing(token: Token) | Revoking(from: Id, next: Id)

  /** The n-th token issued has the id n and the n-th entry of the log. */
  datatype System = System(store: Store, log: seq<Issued>, calls: map<Id, Call>, signedOut: set<Id>)

  datatype Step =
    | SignIn(profileId: Id, isSession: bool, isMfaEnabled: bool, issued: Instant, created: Instant)
    | Find(call: Id, token: Id, found: Instant, checked: Instant)
    | Create(call: Id, issued: Instant, created: Instant)
    | Revoke(call: Id, extended: Instant, updated: Instant)
    | SignOut(token: Id, now: Instant)

  function Target(call: Call): Id {
    if call.Replacing? then call.token.id else call.from
  }

  function RootOf(sys: System, id: Id): Id {
    if id < |sys.log| then sys.log[id].root else id
  }

  function FindStep(sys: System, call: Id, id: Id, found: Instant, checked: Instant): System {
    match Begin(sys.store, id, found, checked)
    case ReIssue(token) => sys.(calls := sys.calls[call := Replacing(token)])
    case _ => sys
  }

  function CreateStep(sys: System, call: Id, issued: Instant, created: Instant): System {
    if call in sys.calls && sys.calls[call].Replacing? then
      var token := sys.calls[call].token;
      var isSession := IsSessionToken(token.createdAt, token.expiresAt);
      var (store, newToken) := Issue(sys.store, token.profileId, isSession, token.isMfaEnabled, issued, created);
      sys.(store := store,
           log := sys.log
             + [Issued(RootOf(sys, token.id), token.profileId, token.isMfaEnabled, isSession, issued, created, None)],
           calls := sys.calls[call := Revoking(token.id, newToken.id)])
    else sys
  }

  function Rotated(log: seq<Issued>, n: nat, rotation: Rotation): seq<Issued>
    requires n < |log|
  {
    log[n := log[n].(rotation := Some(rotation))]
  }

  function RevokeStep(sys: System, call: Id, extended: Instant, updated: Instant): System {
    if call in sys.calls && sys.calls[call].Revoking? then
      var Revoking(from, next) := sys.calls[call];
      var log := if IsUpdatable(sys.store, from, updated) && from < |sys.log|
                 then Rotated(sys.log, from, Rotation(extended, next)) else sys.log;
      System(RefreshTokens.Revoke(sys.store, from, next, extended, updated), log, sys.calls - {call}, sys.signedOut)
    else sys
  }

  function SignInStep(sys: System, profileId: Id, isSession: bool, isMfaEnabled: bool, issued: Instant,
                      created: Instant): System {
    sys.(store := Issue(sys.store, profileId, isSession, isMfaEnabled, issued, created).0,
         log := sys.log + [Issued(|sys.log|, profileId, isMfaEnabled, isSession, issued, created, None)])
  }

  function Apply(sys: System, step: Step): System {
    match step
    case SignIn(profileId, isSession, isMfaEnabled, issued, created) =>
      SignInStep(sys, profileId, isSession, isMfaEnabled, issued, created)
    case Find(call, token, found, checked) => FindStep(sys, call, token, found, checked)
    case Create(call, issued, created) => CreateStep(sys, call, issued, created)
    case Revoke(call, extended, updated) => RevokeStep(sys, call, extended, updated)
    case SignOut(token, _) =>
      if token < |sys.log| then sys.(store := Remove(sys.store, token), signedOut := sys.signedOut + {token}) else sys
  }

  function BeginOf(step: Step): Instant {
    match step
    case SignIn(_, _, _, issued, _) => issued
    case Find(_, _, found, _) => found
    case Create(_, issued, _) => issued
    case Revoke(_, extended, _) => extended
    case SignOut(_, now) => now
  }

  function EndOf(step: Step): Instant {
    match step
    case SignIn(_, _, _, _, created) => created
    case Find(_, _, _, checked) => checked
    case Create(_, _, created) => created
    case Revoke(_, _, updated) => updated
    case SignOut(_, now) => now
  }

  /** The clock does not run backwards. */
  predicate IsTimely(clock: Instant, step: Step) {
    clock <= BeginOf(step) <= EndOf(step)
  }

  /** And a new call has its own name. */
  predicate IsPossible(sys: System, clock: Instant, step: Step) {
    IsTimely(clock, step) && (step.Find? ==> step.call !in sys.calls)
  }

  // ----- what holds under any interleaving -----

  /**
   A row tells what was logged; until its rotation it has no successor and its expiry is the one it was issued with.
  */
  ghost predicate Agrees(token: Token, entry: Issued) {
    && token.profileId == entry.profileId && token.isMfaEnabled == entry.isMfaEnabled
      && token.createdAt == entry.createdAt
    && match entry.rotation
       case None => token.nextToken.None? && token.expiresAt == RefreshTokenExpires(entry.isSession, entry.issuedAt)
       case Some(rotation) => token.nextToken == Some(rotation.next) && token.expiresAt == rotation.at + GRACE
  }

  /** Two tokens of one sign-in, with its profile and MFA flag. */
  ghost predicate SameChain(log: seq<Issued>, i: Id, j: Id) {
    && i < |log| && j < |log| && log[i].root == log[j].root
    && log[i].profileId == log[j].profileId && log[i].isMfaEnabled == log[j].isMfaEnabled
  }

  ghost predicate GoodEntry(log: seq<Issued>, n: nat)
    requires n < |log|
  {
    && log[n].root <= n && SameChain(log, n, log[n].root)
    && (log[n].rotation.Some? ==> n < log[n].rotation.value.next && SameChain(log, n, log[n].rotation.value.next))
  }

  ghost predicate GoodCall(log: seq<Issued>, call: Call) {
    match call
    case Replacing(token) => token.id < |log| && Agrees(token, log[token.id].(rotation := None))
    case Revoking(from, next) => from < next && SameChain(log, from, next)
  }

  /** Links lead from a token to a later one of the same chain, and the rows are those issued and not signed out. */
  ghost predicate Linked(sys: System) {
    && sys.store.nextId == |sys.log|
    && (forall id: Id :: id in sys.store.tokens <==> id < |sys.log| && id !in sys.signedOut)
    && (forall id: Id :: id in sys.store.tokens ==>
      sys.store.tokens[id].id == id && Agrees(sys.store.tokens[id], sys.log[id]))
    && (forall n :: 0 <= n < |sys.log| ==> GoodEntry(sys.log, n))
    && (forall call :: call in sys.calls ==> GoodCall(sys.log, sys.calls[call]))
    && (forall id: Id :: id in sys.signedOut ==> id < |sys.log|)
  }

  lemma Append(log: seq<Issued>, entry: Issued)
    requires forall n :: 0 <= n < |log| ==> GoodEntry(log, n)
    requires GoodEntry(log + [entry], |log|)
    ensures forall n :: 0 <= n < |log| + 1 ==> GoodEntry(log + [entry], n)
    ensures forall call :: GoodCall(log, call) ==> GoodCall(log + [entry], call)
  {
    forall n | 0 <= n < |log| ensures GoodEntry(log + [entry], n) {
      assert GoodEntry(log, n);
    }
  }

  lemma SignInIsLinked(sys: System, step: Step)
    requires Linked(sys) && step.SignIn?
    ensures Linked(Apply(sys, step))
  {
    var after := Apply(sys, step);
    Append(sys.log, after.log[|sys.log|]);
  }

  lemma CreateIsLinked(sys: System, step: Step)
    requires Linked(sys) && step.Create?
    ensures Linked(Apply(sys, step))
  {
    if step.call in sys.calls && sys.calls[step.call].Replacing? {
      var after, token := Apply(sys, step), sys.calls[step.call].token;
      var entry := sys.log[token.id];
      assert GoodCall(sys.log, sys.calls[step.call]) && GoodEntry(sys.log, token.id) && GoodEntry(sys.log, entry.root);
      assert SameChain(after.log, token.id, |sys.log|);
      Append(sys.log, after.log[|sys.log|]);
    }
  }

  lemma RotationKeepsEntries(log: seq<Issued>, n: nat, rotation: Rotation)
    requires forall i :: 0 <= i < |log| ==> GoodEntry(log, i)
    requires n < rotation.next && SameChain(log, n, rotation.next)
    ensures forall i :: 0 <= i < |log| ==> GoodEntry(Rotated(log, n, rotation), i)
    ensures forall call :: GoodCall(log, call) ==> GoodCall(Rotated(log, n, rotation), call)
  {
    var after := Rotated(log, n, rotation);
    assert forall i, j :: SameChain(log, i, j) ==> SameChain(after, i, j);
    forall i | 0 <= i < |log| ensures GoodEntry(after, i) {
      assert GoodEntry(log, i);
    }
  }

  lemma RevokeIsLinked(sys: System, step: Step)
    requires Linked(sys) && step.Revoke?
    ensures Linked(Apply(sys, step))
  {
    if step.call in sys.calls && sys.calls[step.call].Revoking? {
      var call := sys.calls[step.call];
      assert GoodCall(sys.log, call);
      RotationKeepsEntries(sys.log, call.from, Rotation(step.extended, call.next));
    }
  }

  /** Every step keeps the links, whatever the clocks show and whatever other calls are doing. */
  lemma StepKeepsLinks(sys: System, step: Step)
    requires Linked(sys)
    ensures Linked(Apply(sys, step))
    ensures |sys.log| <= |Apply(sys, step).log|
    ensures forall id: Id :: id in Apply(sys, step).store.tokens && id !in sys.store.tokens ==> id == |sys.log|
  {
    match step
    case SignIn(_, _, _, _, _) => SignInIsLinked(sys, step);
    case Create(_, _, _) => CreateIsLinked(sys, step);
    case Revoke(_, _, _) => RevokeIsLinked(sys, step);
    case Find(_, _, _, _) =>
    case SignOut(_, _) =>
  }

  // ----- what holds while rows are stamped in time -----

  /** The lag of the stamp behind the computation of the expiry within which both kinds are read back. */
  predicate IsStampedInTime(issued: Instant, created: Instant) {
    SESSION_DURATION - DEFAULT_DURATION + MINUTE < created - issued <= MINUTE
  }

  predicate IsStamped(step: Step) {
    step.SignIn? || step.Create? ==> IsStampedInTime(BeginOf(step), EndOf(step))
  }

  /** A replacement is of the kind of the token it replaces exactly when that token's kind can be read back. */
  lemma ReplacementKeepsKind(sys: System, call: Id, issued: Instant, created: Instant)
    requires Linked(sys) && call in sys.calls && sys.calls[call].Replacing?
    ensures var entry, after := sys.log[sys.calls[call].token.id], CreateStep(sys, call, issued, created);
      after.log[|sys.log|].isSession == entry.isSession
      <==> (if entry.isSession then entry.createdAt - entry.issuedAt > SESSION_DURATION - DEFAULT_DURATION + MINUTE
            else entry.createdAt - entry.issuedAt <= MINUTE)
  {
    assert GoodCall(sys.log, sys.calls[call]);
    var entry := sys.log[sys.calls[call].token.id];
    KindIsRecognised(entry.isSession, entry.issuedAt, entry.createdAt);
  }

  /** Every token is of the kind of its sign-in. */
  ghost predicate KindsKept(log: seq<Issued>) {
    forall n :: 0 <= n < |log| ==>
      && IsStampedInTime(log[n].issuedAt, log[n].createdAt)
      && log[n].root < |log| && log[n].isSession == log[log[n].root].isSession
  }

  lemma StepKeepsKinds(sys: System, step: Step)
    requires Linked(sys) && KindsKept(sys.log) && IsStamped(step)
    ensures KindsKept(Apply(sys, step).log)
  {
    match step
    case SignIn(profileId, isSession, isMfaEnabled, issued, created) =>
      AppendKeepsKinds(sys.log, Issued(|sys.log|, profileId, isMfaEnabled, isSession, issued, created, None));
    case Create(_, _, _) => CreateKeepsKinds(sys, step);
    case Revoke(_, _, _) => RevokeKeepsKinds(sys, step);
    case Find(_, _, _, _) =>
    case SignOut(_, _) =>
  }

  lemma AppendKeepsKinds(log: seq<Issued>, entry: Issued)
    requires KindsKept(log) && IsStampedInTime(entry.issuedAt, entry.createdAt)
    requires entry.root == |log| || (entry.root < |log| && entry.isSession == log[entry.root].isSession)
    ensures KindsKept(log + [entry])
  {
    var after := log + [entry];
    assert forall n :: 0 <= n < |log| ==> after[n] == log[n];
  }

  lemma CreateKeepsKinds(sys: System, step: Step)
    requires Linked(sys) && KindsKept(sys.log) && IsStamped(step) && step.Create?
    ensures KindsKept(Apply(sys, step).log)
  {
    if step.call in sys.calls && sys.calls[step.call].Replacing? {
      var after := Apply(sys, step);
      assert GoodCall(sys.log, sys.calls[step.call]);
      ReplacementKeepsKind(sys, step.call, step.issued, step.created);
      AppendKeepsKinds(sys.log, after.log[|sys.log|]);
    }
  }

  lemma RevokeKeepsKinds(sys: System, step: Step)
    requires KindsKept(sys.log) && step.Revoke?
    ensures KindsKept(Apply(sys, step).log)
  {
    var after := Apply(sys, step);
    forall n | 0 <= n < |after.log|
      ensures after.log[n].(rotation := None) == sys.log[n].(rotation := None)
    {
    }
  }

  // ----- chains, when no two calls replace the same token -----

  /**
   What has to be checked before a step: no call starts to replace a token that another call is replacing or has just
   issued, and the grace period of a revoked token ends before its successor can be replaced.
  */
  ghost predicate IsExclusive(sys: System, step: Step)
    requires Linked(sys)
  {
    match step
    case Find(_, token, found, checked) =>
      Begin(sys.store, token, found, checked).ReIssue? ==>
        forall call :: call in sys.calls ==> !WorksOn(sys.calls[call], token)
    case Revoke(call, extended, updated) =>
      call in sys.calls && sys.calls[call].Revoking? && IsUpdatable(sys.store, sys.calls[call].from, updated) ==>
        RevokesInTime(sys.log, sys.calls[call].next, extended)
    case _ => true
  }

  predicate WorksOn(call: Call, token: Id) {
    Target(call) == token || (call.Revoking? && call.next == token)
  }

  /** From the stamp of a token to the revocation of its predecessor: seven hours less the grace period. */
  const SLOWEST_CALL := 7 * HOUR - 5 * SECOND

  ghost predicate RevokesInTime(log: seq<Issued>, next: Id, extended: Instant) {
    next < |log| && extended - log[next].createdAt <= SLOWEST_CALL
  }

  ghost predicate SameRoot(log: seq<Issued>, i: Id, j: Id) {
    i < |log| && j < |log| && log[i].root == log[j].root
  }

  ghost predicate IsPending(calls: map<Id, Call>, i: Id, j: Id) {
    exists call :: call in calls && calls[call] == Revoking(i, j)
  }

  /** The token `i` has left the stage to its successor, or is about to. */
  ghost predicate IsOver(sys: System, clock: Instant, i: Id, j: Id)
    requires i < |sys.log| && j < |sys.log|
  {
    var entry := sys.log[i];
    || i in sys.signedOut
    || IsPending(sys.calls, i, j)
    || match entry.rotation
       case None => RefreshTokenExpires(entry.isSession, entry.issuedAt) <= clock
       case Some(rotation) => rotation.at + GRACE <= sys.log[j].createdAt + RE_ISSUE_AGE
  }

  ghost predicate IsSucceeded(sys: System, clock: Instant, i: Id, j: Id)
    requires i < |sys.log| && j < |sys.log|
  {
    sys.log[i].createdAt + RE_ISSUE_AGE <= sys.log[j].createdAt && IsOver(sys, clock, i, j)
  }

  /** A call works at the end of its chain. */
  ghost predicate WorksAtEnd(log: seq<Issued>, clock: Instant, call: Call) {
    && Target(call) < |log| && log[Target(call)].rotation.None?
    && (forall j: Id :: SameRoot(log, Target(call), j) && Target(call) < j ==> call.Revoking? && call.next == j)
    && (call.Replacing? ==> log[call.token.id].createdAt + RE_ISSUE_AGE <= clock)
  }

  ghost predicate Chained(sys: System, clock: Instant) {
    && (forall n :: 0 <= n < |sys.log| ==> sys.log[n].createdAt <= clock)
    && (forall i: Id, j: Id :: SameRoot(sys.log, i, j) && i < j ==> IsSucceeded(sys, clock, i, j))
    && (forall call :: call in sys.calls ==> WorksAtEnd(sys.log, clock, sys.calls[call]))
    && (forall call, other :: call in sys.calls && other in sys.calls && call != other ==>
          !SameRoot(sys.log, Target(sys.calls[call]), Target(sys.calls[other])))
  }

  /** A token that a call starts to replace is the last of its chain, and no other call works on that chain. */
  lemma ReplacedIsLast(sys: System, clock: Instant, step: Step)
    requires Linked(sys) && Chained(sys, clock) && IsPossible(sys, clock, step) && IsExclusive(sys, step) && step.Find?
    requires Begin(sys.store, step.token, step.found, step.checked).ReIssue?
    ensures forall j: Id :: SameRoot(sys.log, step.token, j) ==> j <= step.token
    ensures forall call :: call in sys.calls ==> !SameRoot(sys.log, Target(sys.calls[call]), step.token)
  {
    var id := step.token;
    forall j ensures !IsPending(sys.calls, id, j) {
    }
    forall j: Id | SameRoot(sys.log, id, j) ensures j <= id {
      assert id < j ==> IsSucceeded(sys, clock, id, j);
    }
    assert forall j: Id :: SameRoot(sys.log, j, id) ==> SameRoot(sys.log, id, j);
    forall call | call in sys.calls ensures !SameRoot(sys.log, Target(sys.calls[call]), id) {
      assert WorksAtEnd(sys.log, clock, sys.calls[call]) && !WorksOn(sys.calls[call], id);
    }
  }

  lemma FindKeepsChains(sys: System, clock: Instant, step: Step)
    requires Linked(sys) && Chained(sys, clock) && IsPossible(sys, clock, step) && IsExclusive(sys, step) && step.Find?
    ensures Chained(Apply(sys, step), EndOf(step))
  {
    TimePasses(sys, clock, EndOf(step));
    if Begin(sys.store, step.token, step.found, step.checked).ReIssue? {
      ReplacedIsLast(sys, clock, step);
      StartKeepsChains(sys, EndOf(step), step.call, sys.store.tokens[step.token]);
    }
  }

  lemma StartKeepsChains(sys: System, clock: Instant, call: Id, token: Token)
    requires Chained(sys, clock) && call !in sys.calls
    requires token.id < |sys.log| && sys.log[token.id].rotation.None?
      && sys.log[token.id].createdAt + RE_ISSUE_AGE <= clock
    requires forall j: Id :: SameRoot(sys.log, token.id, j) ==> j <= token.id
    requires forall other :: other in sys.calls ==> !SameRoot(sys.log, Target(sys.calls[other]), token.id)
    ensures Chained(sys.(calls := sys.calls[call := Replacing(token)]), clock)
  {
    var after := sys.(calls := sys.calls[call := Replacing(token)]);
    forall i: Id, j: Id | SameRoot(sys.log, i, j) && i < j ensures IsSucceeded(after, clock, i, j) {
      assert IsSucceeded(sys, clock, i, j);
      if IsPending(sys.calls, i, j) {
        var other :| other in sys.calls && sys.calls[other] == Revoking(i, j);
        assert after.calls[other] == Revoking(i, j);
      }
    }
    forall other | other in sys.calls ensures !SameRoot(sys.log, token.id, Target(sys.calls[other])) {
      assert !SameRoot(sys.log, Target(sys.calls[other]), token.id);
    }
  }

  lemma TimePasses(sys: System, clock: Instant, later: Instant)
    requires Chained(sys, clock) && clock <= later
    ensures Chained(sys, later)
  {
  }

  lemma SignInKeepsChains(sys: System, clock: Instant, step: Step)
    requires Linked(sys) && Chained(sys, clock) && IsPossible(sys, clock, step) && step.SignIn?
    ensures Chained(Apply(sys, step), EndOf(step))
  {
    var after, end := Apply(sys, step), EndOf(step);
    var n := |sys.log|;
    assert forall i :: 0 <= i < n ==> GoodEntry(sys.log, i) && after.log[i] == sys.log[i];
    forall i: Id, j: Id | SameRoot(after.log, i, j) && i < j ensures IsSucceeded(after, end, i, j) {
      assert SameRoot(sys.log, i, j);
      assert IsSucceeded(sys, clock, i, j);
    }
    forall call | call in after.calls ensures WorksAtEnd(after.log, end, after.calls[call]) {
      assert WorksAtEnd(sys.log, clock, sys.calls[call]);
      AppendKeepsEnd(sys.log, after.log[n], clock, end, sys.calls[call]);
    }
  }

  lemma AppendKeepsEnd(log: seq<Issued>, entry: Issued, clock: Instant, later: Instant, call: Call)
    requires WorksAtEnd(log, clock, call) && clock <= later && entry.root != log[Target(call)].root
    ensures WorksAtEnd(log + [entry], later, call)
  {
    var after := log + [entry];
    forall j: Id | SameRoot(after, Target(call), j) && Target(call) < j ensures call.Revoking? && call.next == j {
      assert SameRoot(log, Target(call), j);
    }
  }

  lemma CreateKeepsChains(sys: System, clock: Instant, step: Step)
    requires Linked(sys) && Chained(sys, clock) && IsPossible(sys, clock, step) && step.Create?
    ensures Chained(Apply(sys, step), EndOf(step))
  {
    var after, end := Apply(sys, step), EndOf(step);
    if step.call in sys.calls && sys.calls[step.call].Replacing? {
      var n, id := |sys.log|, sys.calls[step.call].token.id;
      assert WorksAtEnd(sys.log, clock, sys.calls[step.call]) && GoodCall(sys.log, sys.calls[step.call]);
      forall i: Id, j: Id | SameRoot(after.log, i, j) && i < j ensures IsSucceeded(after, end, i, j) {
        CreatedIsSucceeded(sys, clock, step, i, j);
      }
      forall call | call in after.calls ensures WorksAtEnd(after.log, end, after.calls[call]) {
        assert WorksAtEnd(sys.log, clock, sys.calls[call]);
        if call == step.call {
          CreatedIsLast(sys.log, after.log[n], clock, end, id);
        } else {
          AppendKeepsEnd(sys.log, after.log[n], clock, end, sys.calls[call]);
        }
      }
    } else {
      TimePasses(sys, clock, end);
    }
  }

  lemma CreatedIsLast(log: seq<Issued>, entry: Issued, clock: Instant, later: Instant, id: Id)
    requires id < |log| && log[id].rotation.None?
    requires forall j: Id :: SameRoot(log, id, j) ==> j <= id
    ensures WorksAtEnd(log + [entry], later, Revoking(id, |log|))
  {
    var after := log + [entry];
    forall j: Id | SameRoot(after, id, j) && id < j ensures j == |log| {
      assert j < |log| ==> SameRoot(log, id, j);
    }
  }

  lemma CreatedIsSucceeded(sys: System, clock: Instant, step: Step, i: Id, j: Id)
    requires Linked(sys) && Chained(sys, clock) && IsPossible(sys, clock, step) && step.Create?
    requires step.call in sys.calls && sys.calls[step.call].Replacing?
    requires SameRoot(Apply(sys, step).log, i, j) && i < j
    ensures IsSucceeded(Apply(sys, step), EndOf(step), i, j)
  {
    var after := Apply(sys, step);
    var n, id := |sys.log|, sys.calls[step.call].token.id;
    assert WorksAtEnd(sys.log, clock, sys.calls[step.call]);
    assert after.calls[step.call] == Revoking(id, n);
    if j < n {
      assert IsSucceeded(sys, clock, i, j);
      PendingStays(sys, step, i, j);
    } else if i == id {
      assert IsPending(after.calls, id, n);
    } else {
      assert SameRoot(sys.log, id, i) && SameRoot(sys.log, i, id);
      assert IsSucceeded(sys, clock, i, id);
      assert !IsPending(sys.calls, i, id);
    }
  }

  lemma PendingStays(sys: System, step: Step, i: Id, j: Id)
    requires step.Create?
    ensures IsPending(sys.calls, i, j) ==> IsPending(Apply(sys, step).calls, i, j)
  {
    if IsPending(sys.calls, i, j) {
      var call :| call in sys.calls && sys.calls[call] == Revoking(i, j);
      assert Apply(sys, step).calls[call] == Revoking(i, j);
    }
  }

  lemma RevokeKeepsChains(sys: System, clock: Instant, step: Step)
    requires Linked(sys) && Chained(sys, clock) && IsPossible(sys, clock, step) && IsExclusive(sys, step)
      && step.Revoke?
    ensures Chained(Apply(sys, step), EndOf(step))
  {
    var after, end := Apply(sys, step), EndOf(step);
    if step.call in sys.calls && sys.calls[step.call].Revoking? {
      forall i: Id, j: Id | SameRoot(after.log, i, j) && i < j ensures IsSucceeded(after, end, i, j) {
        RevokedIsSucceeded(sys, clock, step, i, j);
      }
      forall call | call in after.calls ensures WorksAtEnd(after.log, end, after.calls[call]) {
        RotationKeepsEnd(sys, clock, step, call);
      }
    } else {
      TimePasses(sys, clock, end);
    }
  }

  lemma RevokedIsSucceeded(sys: System, clock: Instant, step: Step, i: Id, j: Id)
    requires Linked(sys) && Chained(sys, clock) && IsPossible(sys, clock, step) && IsExclusive(sys, step)
      && step.Revoke?
    requires step.call in sys.calls && sys.calls[step.call].Revoking?
    requires SameRoot(Apply(sys, step).log, i, j) && i < j
    ensures IsSucceeded(Apply(sys, step), EndOf(step), i, j)
  {
    var after := Apply(sys, step);
    assert WorksAtEnd(sys.log, clock, sys.calls[step.call]) && GoodCall(sys.log, sys.calls[step.call]);
    assert SameRoot(sys.log, i, j) && IsSucceeded(sys, clock, i, j);
    if i != sys.calls[step.call].from && IsPending(sys.calls, i, j) {
      var call :| call in sys.calls && sys.calls[call] == Revoking(i, j);
      assert after.calls[call] == Revoking(i, j);
    }
  }

  lemma RotationKeepsEnd(sys: System, clock: Instant, step: Step, call: Id)
    requires Linked(sys) && Chained(sys, clock) && IsPossible(sys, clock, step) && step.Revoke?
    requires step.call in sys.calls && sys.calls[step.call].Revoking? && call in sys.calls && call != step.call
    ensures WorksAtEnd(Apply(sys, step).log, EndOf(step), sys.calls[call])
  {
    var after, target := Apply(sys, step), Target(sys.calls[call]);
    assert WorksAtEnd(sys.log, clock, sys.calls[call]) && WorksAtEnd(sys.log, clock, sys.calls[step.call]);
    assert !SameRoot(sys.log, target, Target(sys.calls[step.call]));
    forall j: Id | SameRoot(after.log, target, j) && target < j
      ensures sys.calls[call].Revoking? && sys.calls[call].next == j {
      assert SameRoot(sys.log, target, j);
    }
  }

  /** Starting to replace a token on which another call works puts two calls into one chain. */
  lemma FindIsExclusive(sys: System, clock: Instant, step: Step)
    requires Linked(sys) && IsPossible(sys, clock, step) && step.Find? && Chained(Apply(sys, step), EndOf(step))
    ensures IsExclusive(sys, step)
  {
    var after := Apply(sys, step);
    if Begin(sys.store, step.token, step.found, step.checked).ReIssue? {
      assert after.calls[step.call] == Replacing(sys.store.tokens[step.token]);
      forall call | call in sys.calls ensures !WorksOn(sys.calls[call], step.token) {
        assert after.calls[call] == sys.calls[call] && GoodCall(sys.log, sys.calls[call]);
        assert !SameRoot(sys.log, Target(sys.calls[call]), step.token);
      }
    }
  }

  /** A late revocation leaves a token in its grace period whose successor can be replaced already. */
  lemma RevokeIsExclusive(sys: System, clock: Instant, step: Step)
    requires Linked(sys) && Chained(sys, clock) && IsPossible(sys, clock, step) && step.Revoke?
    requires Chained(Apply(sys, step), EndOf(step))
    ensures IsExclusive(sys, step)
  {
    if step.call in sys.calls && sys.calls[step.call].Revoking?
      && IsUpdatable(sys.store, sys.calls[step.call].from, step.updated) {
      var after := Apply(sys, step);
      var Revoking(from, next) := sys.calls[step.call];
      assert GoodCall(sys.log, sys.calls[step.call]);
      assert SameRoot(after.log, from, next) && IsSucceeded(after, EndOf(step), from, next);
      forall call | call in after.calls ensures after.calls[call] != Revoking(from, next) {
        assert !SameRoot(sys.log, Target(sys.calls[call]), Target(sys.calls[step.call]));
      }
    }
  }

  /** Exactly the exclusive steps keep the chains, and in every step a token that was rotated keeps its successor. */
  lemma StepKeepsChains(sys: System, clock: Instant, step: Step)
    requires Linked(sys) && Chained(sys, clock) && IsPossible(sys, clock, step)
    ensures Linked(Apply(sys, step))
    ensures Chained(Apply(sys, step), EndOf(step)) <==> IsExclusive(sys, step)
    ensures forall n :: 0 <= n < |sys.log| && sys.log[n].rotation.Some? ==>
      n < |Apply(sys, step).log| && Apply(sys, step).log[n].rotation == sys.log[n].rotation
  {
    StepKeepsLinks(sys, step);
    match step
    case SignIn(_, _, _, _, _) => SignInKeepsChains(sys, clock, step);
    case Find(_, _, _, _) => FindChains(sys, clock, step);
    case Create(_, _, _) => CreateKeepsChains(sys, clock, step);
    case Revoke(call, _, _) =>
      RevokeChains(sys, clock, step);
      assert call in sys.calls ==> WorksAtEnd(sys.log, clock, sys.calls[call]);
    case SignOut(_, now) => SignOutKeepsChains(sys, clock, step);
  }

  lemma FindChains(sys: System, clock: Instant, step: Step)
    requires Linked(sys) && Chained(sys, clock) && IsPossible(sys, clock, step) && step.Find?
    ensures Chained(Apply(sys, step), EndOf(step)) <==> IsExclusive(sys, step)
  {
    if IsExclusive(sys, step) {
      FindKeepsChains(sys, clock, step);
    }
    if Chained(Apply(sys, step), EndOf(step)) {
      FindIsExclusive(sys, clock, step);
    }
  }

  lemma RevokeChains(sys: System, clock: Instant, step: Step)
    requires Linked(sys) && Chained(sys, clock) && IsPossible(sys, clock, step) && step.Revoke?
    ensures Chained(Apply(sys, step), EndOf(step)) <==> IsExclusive(sys, step)
  {
    if IsExclusive(sys, step) {
      RevokeKeepsChains(sys, clock, step);
    }
    if Chained(Apply(sys, step), EndOf(step)) {
      RevokeIsExclusive(sys, clock, step);
    }
  }

  lemma SignOutKeepsChains(sys: System, clock: Instant, step: Step)
    requires Linked(sys) && Chained(sys, clock) && IsPossible(sys, clock, step) && step.SignOut?
    ensures Chained(Apply(sys, step), EndOf(step))
  {
    forall i: Id, j: Id | SameRoot(sys.log, i, j) && i < j ensures IsSucceeded(Apply(sys, step), EndOf(step), i, j) {
      assert IsSucceeded(sys, clock, i, j);
    }
  }

  // ----- what chains promise -----

  predicate IsLive(sys: System, id: Id, now: Instant) {
    id in sys.store.tokens && sys.store.tokens[id].expiresAt > now
  }

  predicate IsCurrent(sys: System, id: Id, now: Instant) {
    IsLive(sys, id, now) && sys.store.tokens[id].nextToken.None?
  }

  /** Of three tokens of a chain the first is no longer live: at most two are, at any instant. */
  lemma AtMostTwoLive(sys: System, clock: Instant, now: Instant, i: Id, j: Id, k: Id)
    requires Linked(sys) && Chained(sys, clock) && clock <= now
    requires i < j < k && SameRoot(sys.log, i, j) && SameRoot(sys.log, j, k)
    ensures !IsLive(sys, i, now)
  {
    assert IsSucceeded(sys, clock, i, j) && IsSucceeded(sys, clock, j, k);
    assert SameRoot(sys.log, i, k);
    forall call | call in sys.calls ensures sys.calls[call] != Revoking(i, j) {
      assert WorksAtEnd(sys.log, clock, sys.calls[call]);
    }
  }

  /** Two live tokens without a successor occur in a chain only between the creation and the revocation of one `use`. */
  lemma AtMostOneCurrent(sys: System, clock: Instant, now: Instant, i: Id, j: Id)
    requires Linked(sys) && Chained(sys, clock) && clock <= now
    requires i < j && SameRoot(sys.log, i, j)
    requires IsCurrent(sys, i, now) && IsCurrent(sys, j, now)
    ensures IsPending(sys.calls, i, j)
  {
  }

  /** Within the grace period every use of a rotated token creates nothing and answers with its successor. */
  lemma GraceReplay(sys: System, id: Id, found: Instant, checked: Instant, call: Id)
    requires Linked(sys)
    requires id in sys.store.tokens && sys.log[id].rotation.Some? && found < sys.log[id].rotation.value.at + GRACE
    ensures Begin(sys.store, id, found, checked)
         == Replay(sys.store.tokens[id].(id := sys.log[id].rotation.value.next))
    ensures FindStep(sys, call, id, found, checked) == sys
  {
  }

  /** While the chains are in order, that successor can be used itself at that instant unless it was signed out. */
  lemma ReplayedIsCurrent(sys: System, clock: Instant, id: Id, found: Instant)
    requires Linked(sys) && Chained(sys, clock) && clock <= found
    requires id in sys.store.tokens && sys.log[id].rotation.Some? && found < sys.log[id].rotation.value.at + GRACE
    requires var next := sys.log[id].rotation.value.next;
      next !in sys.signedOut && (next < |sys.log| ==> sys.log[next].createdAt - sys.log[next].issuedAt <= HOUR)
    ensures IsCurrent(sys, sys.log[id].rotation.value.next, found)
  {
    var next := sys.log[id].rotation.value.next;
    assert GoodEntry(sys.log, id);
    assert SameRoot(sys.log, id, next) && IsSucceeded(sys, clock, id, next);
    forall call | call in sys.calls ensures sys.calls[call] != Revoking(id, next) {
      assert WorksAtEnd(sys.log, clock, sys.calls[call]);
    }
    RotatedIsOld(sys, clock, next);
  }

  lemma RotatedIsOld(sys: System, clock: Instant, id: Id)
    requires Linked(sys) && Chained(sys, clock) && id < |sys.log|
    ensures sys.log[id].rotation.Some? ==> sys.log[id].createdAt + RE_ISSUE_AGE <= clock
  {
    if sys.log[id].rotation.Some? {
      var next := sys.log[id].rotation.value.next;
      assert GoodEntry(sys.log, id);
      assert SameRoot(sys.log, id, next) && IsSucceeded(sys, clock, id, next);
    }
  }

  /** Following links from a token never leads back. */
  function Followed(log: seq<Issued>, id: Id, count: nat): Option<Id> {
    if count == 0 then Some(id)
    else match Followed(log, id, count - 1)
      case None => None
      case Some(before) =>
        if before < |log| && log[before].rotation.Some? then Some(log[before].rotation.value.next) else None
  }

  lemma {:induction false} LinksAscend(sys: System, id: Id, count: nat)
    requires Linked(sys) && id < |sys.log| && Followed(sys.log, id, count).Some?
    ensures id + count <= Followed(sys.log, id, count).value
    ensures SameChain(sys.log, id, Followed(sys.log, id, count).value)
  {
    if count == 0 {
    } else {
      LinksAscend(sys, id, count - 1);
      assert GoodEntry(sys.log, Followed(sys.log, id, count - 1).value);
    }
  }

  // ----- whole runs -----

  const INITIAL := System(Store(map[], 0), [], map[], {})

  function State(steps: seq<Step>): System {
    if steps == [] then INITIAL else Apply(State(steps[..|steps| - 1]), steps[|steps| - 1])
  }

  function Clock(begin: Instant, steps: seq<Step>): Instant {
    if steps == [] then begin else EndOf(steps[|steps| - 1])
  }

  ghost predicate IsRun(begin: Instant, steps: seq<Step>) {
    steps != [] ==>
      var before := steps[..|steps| - 1];
      IsRun(begin, before) && IsPossible(State(before), Clock(begin, before), steps[|steps| - 1])
  }

  ghost predicate IsExclusiveRun(begin: Instant, steps: seq<Step>)
    requires IsRun(begin, steps)
  {
    steps != [] ==>
      var before := steps[..|steps| - 1];
      IsExclusiveRun(begin, before) && Linked(State(before)) && IsExclusive(State(before), steps[|steps| - 1])
  }

  /** The chains are in order after the run and were in order after every step of it. */
  ghost predicate AlwaysChained(begin: Instant, steps: seq<Step>) {
    Chained(State(steps), Clock(begin, steps)) && (steps != [] ==> AlwaysChained(begin, steps[..|steps| - 1]))
  }

  /**
   After any steps at all links ascend within a chain, ids are fresh, and profile and MFA flag are those of the sign-in.
  */
  lemma {:induction false} RunsAreLinked(steps: seq<Step>)
    ensures Linked(State(steps))
  {
    if steps == [] {
    } else {
      RunsAreLinked(steps[..|steps| - 1]);
      StepKeepsLinks(State(steps[..|steps| - 1]), steps[|steps| - 1]);
    }
  }

  /** And if the rows are stamped in time, every token is of the kind of its sign-in. */
  lemma {:induction false} RunsKeepKinds(steps: seq<Step>)
    requires forall step :: step in steps ==> IsStamped(step)
    ensures KindsKept(State(steps).log)
  {
    if steps == [] {
    } else {
      var before := steps[..|steps| - 1];
      RunsAreLinked(before);
      RunsKeepKinds(before);
      StepKeepsKinds(State(before), steps[|steps| - 1]);
    }
  }

  /** The chains stay in order throughout a run exactly when every step of it is exclusive. */
  lemma {:induction false} ExclusiveRunsAreChained(begin: Instant, steps: seq<Step>)
    requires IsRun(begin, steps)
    ensures AlwaysChained(begin, steps) <==> IsExclusiveRun(begin, steps)
  {
    if steps == [] {
    } else {
      var before := steps[..|steps| - 1];
      ExclusiveRunsAreChained(begin, before);
      RunsAreLinked(before);
      if Chained(State(before), Clock(begin, before)) {
        StepKeepsChains(State(before), Clock(begin, before), steps[|steps| - 1]);
      }
      assert AlwaysChained(begin, before) ==> Chained(State(before), Clock(begin, before));
    }
  }

  ghost predicate AtMostTwoLivePerChain(sys: System, now: Instant) {
    forall i: Id, j: Id, k: Id :: i < j < k && SameRoot(sys.log, i, j) && SameRoot(sys.log, j, k) ==>
      !(IsLive(sys, i, now) && IsLive(sys, j, now) && IsLive(sys, k, now))
  }

  ghost predicate BothCurrent(sys: System, i: Id, j: Id, now: Instant) {
    i < j && SameRoot(sys.log, i, j) && IsCurrent(sys, i, now) && IsCurrent(sys, j, now)
  }

  /** At every later instant a chain has at most two live tokens, and two current ones only within one call. */
  lemma ChainBounds(sys: System, clock: Instant, now: Instant)
    requires Linked(sys) && Chained(sys, clock) && clock <= now
    ensures AtMostTwoLivePerChain(sys, now)
    ensures forall i: Id, j: Id :: BothCurrent(sys, i, j, now) ==> IsPending(sys.calls, i, j)
  {
    forall i: Id, j: Id, k: Id | i < j < k && SameRoot(sys.log, i, j) && SameRoot(sys.log, j, k)
      ensures !IsLive(sys, i, now)
    {
      AtMostTwoLive(sys, clock, now, i, j, k);
    }
    forall i: Id, j: Id | BothCurrent(sys, i, j, now) ensures IsPending(sys.calls, i, j) {
      AtMostOneCurrent(sys, clock, now, i, j);
    }
  }

  /** So it is after every run of exclusive steps. */
  lemma ChainsOfExclusiveRuns(begin: Instant, steps: seq<Step>, now: Instant)
    requires IsRun(begin, steps) && IsExclusiveRun(begin, steps) && Clock(begin, steps) <= now
    ensures AtMostTwoLivePerChain(State(steps), now)
    ensures forall i: Id, j: Id :: BothCurrent(State(steps), i, j, now) ==> IsPending(State(steps).calls, i, j)
  {
    RunsAreLinked(steps);
    ExclusiveRunsAreChained(begin, steps);
    ChainBounds(State(steps), Clock(begin, steps), now);
  }

  // ----- serial calls -----

  /** A sign-in or sign-out, or a whole `use`. */
  datatype Request = Single(step: Step) | UseToken(token: Id, times: Times)

  /** The last two steps of a call that found a token to replace. */
  function Finished(sys: System, call: Id, times: Times): System {
    RevokeStep(CreateStep(sys, call, times.issued, times.created), call, times.extended, times.updated)
  }

  function Served(sys: System, request: Request): System {
    match request
    case Single(step) => Apply(sys, step)
    case UseToken(token, times) => Finished(FindStep(sys, 0, token, times.found, times.checked), 0, times)
  }

  predicate IsServable(clock: Instant, request: Request) {
    match request
    case Single(step) => (step.SignIn? || step.SignOut?) && IsTimely(clock, step)
    case UseToken(_, times) => clock <= times.found && InOrder(times)
  }

  function EndOfRequest(request: Request): Instant {
    match request case Single(step) => EndOf(step) case UseToken(_, times) => times.updated
  }

  /** What the request does to the table: the specifications of the service. */
  function ServedStore(store: Store, request: Request): Store {
    match request
    case UseToken(token, times) => Used(store, token, times).0
    case Single(SignIn(profileId, isSession, isMfaEnabled, issued, created)) =>
      Issue(store, profileId, isSession, isMfaEnabled, issued, created).0
    case Single(SignOut(token, _)) => Remove(store, token)
    case Single(_) => store
  }

  /** A use that rotates its token revokes it before its successor can be replaced within the grace period. */
  predicate IsQuick(store: Store, request: Request) {
    match request
    case Single(_) => true
    case UseToken(token, times) =>
      Begin(store, token, times.found, times.checked).ReIssue? && store.tokens[token].expiresAt >= times.updated ==>
        times.extended - times.created <= SLOWEST_CALL
  }

  /** The steps of a call that runs alone. */
  lemma LoneCall(sys: System, token: Id, times: Times)
    requires Linked(sys) && sys.calls == map[]
    ensures var found := FindStep(sys, 0, token, times.found, times.checked);
      var created, n := CreateStep(found, 0, times.issued, times.created), |sys.log|;
      && (found == sys || found.calls == map[0 := Replacing(sys.store.tokens[token])])
      && (Begin(sys.store, token, times.found, times.checked).ReIssue? <==> found != sys)
      && (found == sys ==> created == sys)
      && (found != sys ==>
            && created.calls == map[0 := Revoking(token, n)]
            && |created.log| == n + 1 && created.log[n].createdAt == times.created
            && (IsUpdatable(created.store, token, times.updated)
                <==> sys.store.tokens[token].expiresAt >= times.updated))
      && Finished(found, 0, times).store == Used(sys.store, token, times).0
      && Finished(found, 0, times).calls == map[]
  {
    var found := FindStep(sys, 0, token, times.found, times.checked);
    if Begin(sys.store, token, times.found, times.checked).ReIssue? {
      assert 0 in found.calls;
    }
  }

  /** The revocation of a call that runs alone is exclusive exactly when the call is quick. */
  lemma LoneRevocation(sys: System, token: Id, times: Times)
    requires Linked(sys) && sys.calls == map[]
    requires Linked(CreateStep(FindStep(sys, 0, token, times.found, times.checked), 0, times.issued, times.created))
    ensures var created := CreateStep(FindStep(sys, 0, token, times.found, times.checked), 0, times.issued,
                                      times.created);
      IsExclusive(created, Revoke(0, times.extended, times.updated)) <==> IsQuick(sys.store, UseToken(token, times))
  {
    LoneCall(sys, token, times);
  }

  /**
   A `use` that no other call interferes with does what the specification of `use` says, and it keeps the chains exactly
   when it is quick enough.
  */
  lemma SerialUse(sys: System, clock: Instant, token: Id, times: Times)
    requires Linked(sys) && Chained(sys, clock) && sys.calls == map[] && IsServable(clock, UseToken(token, times))
    ensures var after := Served(sys, UseToken(token, times));
      && Linked(after) && after.calls == map[] && after.store == Used(sys.store, token, times).0
      && (Chained(after, times.updated) <==> IsQuick(sys.store, UseToken(token, times)))
  {
    var found := FindStep(sys, 0, token, times.found, times.checked);
    LoneCall(sys, token, times);
    FindAlone(sys, clock, token, times);
    CreateAlone(found, times);
    LoneRevocation(sys, token, times);
    RevokeAlone(CreateStep(found, 0, times.issued, times.created), times);
  }

  lemma FindAlone(sys: System, clock: Instant, token: Id, times: Times)
    requires Linked(sys) && Chained(sys, clock) && sys.calls == map[] && IsServable(clock, UseToken(token, times))
    ensures var found := FindStep(sys, 0, token, times.found, times.checked);
      Linked(found) && Chained(found, times.checked)
  {
    StepKeepsChains(sys, clock, Find(0, token, times.found, times.checked));
  }

  lemma CreateAlone(sys: System, times: Times)
    requires Linked(sys) && Chained(sys, times.checked) && InOrder(times)
    ensures var created := CreateStep(sys, 0, times.issued, times.created);
      Linked(created) && Chained(created, times.created)
  {
    StepKeepsChains(sys, times.checked, Create(0, times.issued, times.created));
  }

  lemma RevokeAlone(sys: System, times: Times)
    requires Linked(sys) && Chained(sys, times.created) && InOrder(times)
    ensures var after := RevokeStep(sys, 0, times.extended, times.updated);
      Linked(after) && (Chained(after, times.updated) <==> IsExclusive(sys, Revoke(0, times.extended, times.updated)))
  {
    StepKeepsChains(sys, times.created, Revoke(0, times.extended, times.updated));
  }

  function SerialState(requests: seq<Request>): System {
    if requests == [] then INITIAL else Served(SerialState(requests[..|requests| - 1]), requests[|requests| - 1])
  }

  function SerialStore(requests: seq<Request>): Store {
    if requests == [] then INITIAL.store
      else ServedStore(SerialStore(requests[..|requests| - 1]), requests[|requests| - 1])
  }

  function SerialClock(begin: Instant, requests: seq<Request>): Instant {
    if requests == [] then begin else EndOfRequest(requests[|requests| - 1])
  }

  ghost predicate IsSerialRun(begin: Instant, requests: seq<Request>) {
    requests != [] ==>
      var before := requests[..|requests| - 1];
      IsSerialRun(begin, before) && IsServable(SerialClock(begin, before), requests[|requests| - 1])
  }

  lemma ServedIsLinked(sys: System, token: Id, times: Times)
    requires Linked(sys)
    ensures Linked(Served(sys, UseToken(token, times)))
  {
    var found := FindStep(sys, 0, token, times.found, times.checked);
    StepKeepsLinks(sys, Find(0, token, times.found, times.checked));
    FinishedIsLinked(found, times);
  }

  lemma FinishedIsLinked(sys: System, times: Times)
    requires Linked(sys)
    ensures Linked(Finished(sys, 0, times))
  {
    StepKeepsLinks(sys, Create(0, times.issued, times.created));
    StepKeepsLinks(CreateStep(sys, 0, times.issued, times.created), Revoke(0, times.extended, times.updated));
  }

  lemma SerialRequest(sys: System, clock: Instant, request: Request)
    requires Linked(sys) && sys.calls == map[] && IsServable(clock, request)
    ensures Linked(Served(sys, request)) && Served(sys, request).calls == map[]
    ensures Served(sys, request).store == ServedStore(sys.store, request)
  {
    match request
    case UseToken(token, times) =>
      LoneCall(sys, token, times);
      ServedIsLinked(sys, token, times);
    case Single(step) =>
      StepKeepsLinks(sys, step);
      assert step.SignOut? && step.token >= |sys.log| ==> Remove(sys.store, step.token).tokens == sys.store.tokens;
  }

  /** Serving requests one after the other gives the table that the specifications of the service give. */
  lemma {:induction false} SerialRunsAreServed(begin: Instant, requests: seq<Request>)
    requires IsSerialRun(begin, requests)
    ensures Linked(SerialState(requests)) && SerialState(requests).calls == map[]
    ensures SerialState(requests).store == SerialStore(requests)
  {
    if requests == [] {
    } else {
      var before := requests[..|requests| - 1];
      SerialRunsAreServed(begin, before);
      SerialRequest(SerialState(before), SerialClock(begin, before), requests[|requests| - 1]);
    }
  }

  // ----- one current token after serial calls -----

  /** The token was signed out, was rotated or has expired. */
  ghost predicate IsPast(sys: System, clock: Instant, i: Id)
    requires i < |sys.log|
  {
    || i in sys.signedOut
    || sys.log[i].rotation.Some?
    || RefreshTokenExpires(sys.log[i].isSession, sys.log[i].issuedAt) <= clock
  }

  /** Only the last token of a chain is not past. */
  ghost predicate OnlyLastRemains(sys: System, clock: Instant) {
    forall i: Id, j: Id :: SameRoot(sys.log, i, j) && i < j ==> IsPast(sys, clock, i)
  }

  /** However long it takes, a `use` that runs alone leaves at most the last token of each chain. */
  lemma SerialUseKeepsLast(sys: System, clock: Instant, token: Id, times: Times)
    requires Linked(sys) && OnlyLastRemains(sys, clock) && sys.calls == map[]
    requires IsServable(clock, UseToken(token, times))
    ensures OnlyLastRemains(Served(sys, UseToken(token, times)), times.updated)
  {
    var after, n := Served(sys, UseToken(token, times)), |sys.log|;
    LoneCall(sys, token, times);
    forall i: Id, j: Id | SameRoot(after.log, i, j) && i < j ensures IsPast(after, times.updated, i) {
      if j < n {
        assert SameRoot(sys.log, i, j) && IsPast(sys, clock, i);
      } else if i != token {
        assert SameRoot(sys.log, i, token) && SameRoot(sys.log, token, i);
      }
    }
  }

  lemma SingleKeepsLast(sys: System, clock: Instant, step: Step)
    requires Linked(sys) && OnlyLastRemains(sys, clock) && IsServable(clock, Single(step))
    ensures OnlyLastRemains(Apply(sys, step), EndOf(step))
  {
    var after := Apply(sys, step);
    assert forall n :: 0 <= n < |sys.log| ==> GoodEntry(sys.log, n) && after.log[n] == sys.log[n];
    forall i: Id, j: Id | SameRoot(after.log, i, j) && i < j ensures IsPast(after, EndOf(step), i) {
      assert SameRoot(sys.log, i, j);
      assert IsPast(sys, clock, i);
    }
  }

  lemma {:induction false} SerialRunsKeepLast(begin: Instant, requests: seq<Request>)
    requires IsSerialRun(begin, requests)
    ensures OnlyLastRemains(SerialState(requests), SerialClock(begin, requests))
  {
    if requests == [] {
    } else {
      var before := requests[..|requests| - 1];
      SerialRunsAreServed(begin, before);
      SerialRunsKeepLast(begin, before);
      match requests[|requests| - 1]
      case UseToken(token, times) => SerialUseKeepsLast(SerialState(before), SerialClock(begin, before), token, times);
      case Single(step) => SingleKeepsLast(SerialState(before), SerialClock(begin, before), step);
    }
  }

  /** After serial requests, however slow, no chain has two current tokens at any later instant. */
  lemma SerialRunsLeaveOneCurrent(begin: Instant, requests: seq<Request>, now: Instant)
    requires IsSerialRun(begin, requests) && SerialClock(begin, requests) <= now
    ensures forall i: Id, j: Id :: !BothCurrent(SerialState(requests), i, j, now)
  {
    SerialRunsAreServed(begin, requests);
    SerialRunsKeepLast(begin, requests);
    var sys := SerialState(requests);
    forall i: Id, j: Id ensures !BothCurrent(sys, i, j, now) {
      assert SameRoot(sys.log, i, j) && i < j ==> IsPast(sys, SerialClock(begin, requests), i);
    }
  }

  // ----- two live tokens after serial calls -----

  ghost predicate SerialAlwaysChained(begin: Instant, requests: seq<Request>) {
    && Chained(SerialState(requests), SerialClock(begin, requests))
    && (requests != [] ==> SerialAlwaysChained(begin, requests[..|requests| - 1]))
  }

  /** Every use is quick, told from the table that the service has at that point. */
  predicate AllQuick(requests: seq<Request>) {
    requests != [] ==>
      AllQuick(requests[..|requests| - 1])
      && IsQuick(SerialStore(requests[..|requests| - 1]), requests[|requests| - 1])
  }

  lemma SerialRequestChains(sys: System, clock: Instant, request: Request)
    requires Linked(sys) && Chained(sys, clock) && sys.calls == map[] && IsServable(clock, request)
    ensures Chained(Served(sys, request), EndOfRequest(request)) <==> IsQuick(sys.store, request)
  {
    match request
    case UseToken(token, times) => SerialUse(sys, clock, token, times);
    case Single(step) => StepKeepsChains(sys, clock, step);
  }

  /** The chains stay in order throughout a serial run exactly when every use of it is quick. */
  lemma {:induction false} SerialRunsAreChained(begin: Instant, requests: seq<Request>)
    requires IsSerialRun(begin, requests)
    ensures SerialAlwaysChained(begin, requests) <==> AllQuick(requests)
  {
    if requests == [] {
    } else {
      var before := requests[..|requests| - 1];
      SerialRunsAreServed(begin, before);
      SerialRunsAreChained(begin, before);
      if Chained(SerialState(before), SerialClock(begin, before)) {
        SerialRequestChains(SerialState(before), SerialClock(begin, before), requests[|requests| - 1]);
      }
      assert SerialAlwaysChained(begin, before) ==> Chained(SerialState(before), SerialClock(begin, before));
    }
  }

  /** Then a chain has at most two live tokens at every later instant. */
  lemma QuickRunsLeaveTwoLive(begin: Instant, requests: seq<Request>, now: Instant)
    requires IsSerialRun(begin, requests) && AllQuick(requests) && SerialClock(begin, requests) <= now
    ensures AtMostTwoLivePerChain(SerialState(requests), now)
  {
    SerialRunsAreServed(begin, requests);
    SerialRunsAreChained(begin, requests);
    ChainBounds(SerialState(requests), SerialClock(begin, requests), now);
  }

  // ----- calls that are not exclusive -----

  function NewToken(sys: System, call: Id): Id
    requires call in sys.calls
  {
    if sys.calls[call].Replacing? then |sys.log| else sys.calls[call].next
  }

  /** Creating leaves the new token current, and everything that was current. */
  lemma CreateLeavesCurrent(sys: System, call: Id, issued: Instant, created: Instant, end: Instant)
    requires Linked(sys) && call in sys.calls && sys.calls[call].Replacing?
    requires end < issued + SESSION_DURATION
    ensures var after, n := CreateStep(sys, call, issued, created), |sys.log|;
      && Linked(after) && after.calls == sys.calls[call := Revoking(Target(sys.calls[call]), n)]
      && |after.log| == n + 1 && (forall k: Id :: k < n ==> after.log[k] == sys.log[k])
      && IsCurrent(after, n, end) && SameRoot(after.log, Target(sys.calls[call]), n)
      && (forall k: Id :: IsCurrent(sys, k, end) ==> IsCurrent(after, k, end))
  {
    StepKeepsLinks(sys, Create(call, issued, created));
    assert GoodCall(sys.log, sys.calls[call]);
  }

  /** Revoking leaves every other token as it was. */
  lemma RevokeLeavesCurrent(sys: System, call: Id, extended: Instant, updated: Instant, end: Instant)
    requires Linked(sys) && call in sys.calls && sys.calls[call].Revoking?
    ensures var after := RevokeStep(sys, call, extended, updated);
      && Linked(after) && after.calls == sys.calls - {call}
      && |after.log| == |sys.log| && (forall k: Id :: k < |sys.log| ==> after.log[k].root == sys.log[k].root)
      && (forall k: Id :: k != sys.calls[call].from && IsCurrent(sys, k, end) ==> IsCurrent(after, k, end))
  {
    StepKeepsLinks(sys, Revoke(call, extended, updated));
  }

  /** A call that can finish until `end`: its new token is or will be current then. */
  ghost predicate CanFinish(sys: System, call: Id, times: Times, end: Instant) {
    && call in sys.calls
    && (sys.calls[call].Replacing? ==> end < times.issued + SESSION_DURATION)
    && (sys.calls[call].Revoking? ==> IsCurrent(sys, sys.calls[call].next, end))
  }

  /** A call that finishes leaves its new token current, and every other current token that it does not replace. */
  lemma FinishingLeavesCurrent(sys: System, call: Id, times: Times, end: Instant)
    requires Linked(sys) && CanFinish(sys, call, times, end)
    ensures var after, n, target := Finished(sys, call, times), NewToken(sys, call), Target(sys.calls[call]);
      && Linked(after) && after.calls == sys.calls - {call}
      && |sys.log| <= |after.log| && (forall k: Id :: k < |sys.log| ==> after.log[k].root == sys.log[k].root)
      && n < |after.log| && n != target && IsCurrent(after, n, end) && SameRoot(after.log, target, n)
      && (forall k: Id :: k != target && IsCurrent(sys, k, end) ==> IsCurrent(after, k, end))
  {
    assert GoodCall(sys.log, sys.calls[call]);
    if sys.calls[call].Replacing? {
      CreateLeavesCurrent(sys, call, times.issued, times.created, end);
    }
    RevokeLeavesCurrent(CreateStep(sys, call, times.issued, times.created), call, times.extended, times.updated, end);
  }

  /**
   Two calls that replace one token: whatever they have done so far and in whichever order they finish, they leave two
   current tokens in its chain, and no call that would revoke one of them.
  */
  lemma CallsOnOneTokenForkChain(sys: System, call: Id, other: Id, times: Times, times': Times, end: Instant)
    requires Linked(sys) && call != other && CanFinish(sys, call, times, end) && CanFinish(sys, other, times', end)
    requires Target(sys.calls[call]) == Target(sys.calls[other])
    requires sys.calls[call].Replacing? || sys.calls[other].Replacing? || sys.calls[call].next != sys.calls[other].next
    ensures var first := Finished(sys, call, times);
      var after, n, m := Finished(first, other, times'), NewToken(sys, call), NewToken(first, other);
      && n != m && SameRoot(after.log, n, m) && SameRoot(after.log, Target(sys.calls[call]), n)
      && IsCurrent(after, n, end) && IsCurrent(after, m, end)
      && after.calls == sys.calls - {call} - {other}
  {
    FinishingLeavesCurrent(sys, call, times, end);
    var first := Finished(sys, call, times);
    assert GoodCall(sys.log, sys.calls[call]) && GoodCall(sys.log, sys.calls[other]);
    FinishingLeavesCurrent(first, other, times', end);
  }

  /**
   A call that replaces a token just issued, before the call that issued it has revoked the old one, forks the chain as
   well.
  */
  lemma ReplacingSuccessorForksChain(sys: System, call: Id, other: Id, times: Times, end: Instant)
    requires Linked(sys) && call != other && call in sys.calls && sys.calls[call].Revoking?
    requires CanFinish(sys, other, times, end) && Target(sys.calls[other]) == sys.calls[call].next
    requires IsCurrent(sys, sys.calls[call].from, end)
    ensures var after, i, k := Finished(sys, other, times), sys.calls[call].from, NewToken(sys, other);
      i != k && SameRoot(after.log, i, k) && IsCurrent(after, i, end) && IsCurrent(after, k, end)
  {
    assert GoodCall(sys.log, sys.calls[call]) && GoodCall(sys.log, sys.calls[other]);
    FinishingLeavesCurrent(sys, other, times, end);
  }

  /** While a token is live, replacing its successor at that instant leaves three live tokens. */
  lemma UseLeavesThreeLive(sys: System, i: Id, j: Id, call: Id, now: Instant)
    requires Linked(sys) && i != j && SameRoot(sys.log, i, j) && call !in sys.calls
    requires IsLive(sys, i, now) && IsCurrent(sys, j, now) && ShouldReIssue(sys.store.tokens[j], now)
    ensures var times := Times(now, now, now, now, now, now);
      var after, k := Finished(FindStep(sys, call, j, now, now), call, times), |sys.log|;
      && k != i && k != j && SameRoot(after.log, i, j) && SameRoot(after.log, j, k)
      && IsLive(after, i, now) && IsLive(after, j, now) && IsLive(after, k, now)
  {
  }

  /**
   A revocation that does not come in time leaves an instant in the grace period at which the successor can be replaced;
   using it then leaves three live tokens.
  */
  lemma LateRevocationLeavesThreeLive(sys: System, call: Id, extended: Instant, updated: Instant, other: Id,
                                      now: Instant)
    requires Linked(sys) && call in sys.calls && sys.calls[call].Revoking? && other !in sys.calls
    requires IsUpdatable(sys.store, sys.calls[call].from, updated) && extended <= updated <= now < extended + GRACE
    requires sys.log[sys.calls[call].next].createdAt + RE_ISSUE_AGE <= now && IsCurrent(sys, sys.calls[call].next, now)
    ensures var revoked, times := RevokeStep(sys, call, extended, updated), Times(now, now, now, now, now, now);
      var after, i, j, k := Finished(FindStep(revoked, other, sys.calls[call].next, now, now), other, times),
                            sys.calls[call].from, sys.calls[call].next, |sys.log|;
      && i != j && k != i && k != j && SameRoot(after.log, i, j) && SameRoot(after.log, j, k)
      && IsLive(after, i, now) && IsLive(after, j, now) && IsLive(after, k, now)
  {
    assert GoodCall(sys.log, sys.calls[call]);
    RevokeLeavesCurrent(sys, call, extended, updated, now);
    UseLeavesThreeLive(RevokeStep(sys, call, extended, updated), sys.calls[call].from, sys.calls[call].next, other,
                       now);
  }

  // ----- replays after other requests -----

  ghost predicate HasFreshIds(store: Store) {
    forall id: Id :: id in store.tokens ==> id < store.nextId && store.tokens[id].id == id
  }

  ghost predicate SignsOut(request: Request, id: Id) {
    request.Single? && request.step.SignOut? && request.step.token == id
  }

  /** No request but its sign-out touches the row of a token that has a successor. */
  lemma RotatedRowStays(store: Store, request: Request, id: Id)
    requires HasFreshIds(store) && id in store.tokens && store.tokens[id].nextToken.Some? && !SignsOut(request, id)
    ensures var after := ServedStore(store, request);
      HasFreshIds(after) && id in after.tokens && after.tokens[id] == store.tokens[id]
  {
  }

  /** The table after these requests. */
  function ServedAll(store: Store, requests: seq<Request>): Store {
    if requests == [] then store
      else ServedStore(ServedAll(store, requests[..|requests| - 1]), requests[|requests| - 1])
  }

  lemma {:induction false} RotatedRowStaysLong(store: Store, requests: seq<Request>, id: Id)
    requires HasFreshIds(store) && id in store.tokens && store.tokens[id].nextToken.Some?
    requires forall request :: request in requests ==> !SignsOut(request, id)
    ensures var after := ServedAll(store, requests);
      HasFreshIds(after) && id in after.tokens && after.tokens[id] == store.tokens[id]
  {
    if requests == [] {
    } else {
      RotatedRowStaysLong(store, requests[..|requests| - 1], id);
      RotatedRowStays(ServedAll(store, requests[..|requests| - 1]), requests[|requests| - 1], id);
    }
  }

  /**
   Until it expires, every use of a rotated token answers with the same row under the id of the successor and changes
   nothing, after any number of other uses, of this token and of others, sign-ins and sign-outs of other tokens.
  */
  lemma ReplaysAreTheSame(store: Store, requests: seq<Request>, id: Id, times: Times)
    requires HasFreshIds(store) && id in store.tokens && store.tokens[id].nextToken.Some?
    requires forall request :: request in requests ==> !SignsOut(request, id)
    requires times.found < store.tokens[id].expiresAt
    ensures var now, row := ServedAll(store, requests), store.tokens[id];
      Used(now, id, times)
      == (now, Some(Token(row.nextToken.value, row.profileId, row.expiresAt, row.nextToken, row.isMfaEnabled,
                          row.createdAt)))
  {
    RotatedRowStaysLong(store, requests, id);
    UseAnswers(ServedAll(store, requests), id, times);
  }

  /** The ids of a system are fresh in this sense. */
  lemma LinkedIdsAreFresh(sys: System)
    requires Linked(sys)
    ensures HasFreshIds(sys.store)
  {
  }
}
