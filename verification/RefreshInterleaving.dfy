/** Refresh requests that run at the same time. Each is split where the code awaits the database:
    finding the token, revoking it, and saving its successor. Logins, revocations of all tokens of
    a user and switching an account on or off are single statements. */
module RefreshInterleaving {
  import opened RefreshTokens

  /** Where a request stands once it has looked its token up. The row it found carries its user. */
  datatype Phase = Found(token: nat, userId: string) | Rotated(userId: string) | Answered(answer: Answer)

  datatype System = System(store: Store, handlers: map<nat, Phase>)

  datatype Step =
    | Find(pid: nat, token: nat, now: int)
    | Rotate(pid: nat)
    | Save(pid: nat, now: int)
    | Other(op: Op)

  const START := System(EMPTY, map[])

  function Move(sys: System, pid: nat, phase: Phase): System {
    sys.(handlers := sys.handlers[pid := phase])
  }

  /** The lookup and the checks on the row it gave. */
  function Lookup(s: Store, token: nat, now: int): Phase {
    if token >= |s.tokens| || s.tokens[token].revoked then Answered(InvalidToken)
    else if now > s.tokens[token].expiresAt then Answered(Expired)
    else if s.tokens[token].userId in s.inactive then Answered(Deactivated)
    else Found(token, s.tokens[token].userId)
  }

  /** Revoking goes by the id of the row; whether it is still unrevoked is not checked again. */
  function RotateStep(sys: System, pid: nat, token: nat, userId: string): System {
    var tokens := sys.store.tokens;
    Move(sys.(store := sys.store.(tokens := if token < |tokens| then Revoke(tokens, token) else tokens)),
         pid, Rotated(userId))
  }

  function SaveStep(sys: System, pid: nat, userId: string, now: int, days: int): System {
    var (store, answer) := Issue(sys.store, userId, now, days);
    Move(sys.(store := store), pid, Answered(answer))
  }

  function Next(sys: System, step: Step, days: int): System {
    match step
    case Find(pid, token, now) =>
      if pid in sys.handlers then sys else Move(sys, pid, Lookup(sys.store, token, now))
    case Rotate(pid) =>
      if pid in sys.handlers && sys.handlers[pid].Found? then
        RotateStep(sys, pid, sys.handlers[pid].token, sys.handlers[pid].userId)
      else sys
    case Save(pid, now) =>
      if pid in sys.handlers && sys.handlers[pid].Rotated? then SaveStep(sys, pid, sys.handlers[pid].userId, now, days)
      else sys
    case Other(op) => if op.RefreshOp? then sys else sys.(store := Apply(sys.store, op, days).0)
  }

  function Reach(sys: System, steps: seq<Step>, days: int): System {
    if steps == [] then sys else Next(Reach(sys, steps[..|steps| - 1], days), steps[|steps| - 1], days)
  }

  lemma OneStep(sys: System, steps: seq<Step>, step: Step, days: int)
    ensures Reach(sys, steps + [step], days) == Next(Reach(sys, steps, days), step, days)
  {
    assert (steps + [step])[..|steps|] == steps;
  }

  /** A request that nobody interrupts does in its steps what the whole request does. */
  lemma SoloRefreshIsAtomic(sys: System, pid: nat, token: nat, now: int, days: int)
    requires pid !in sys.handlers
    ensures var end := Next(Next(Next(sys, Find(pid, token, now), days), Rotate(pid), days), Save(pid, now), days);
            var (store, answer) := Refresh(sys.store, token, now, days);
            end == System(store, sys.handlers[pid := Answered(answer)])
  {
    var found := Next(sys, Find(pid, token, now), days);
    if found.handlers[pid].Found? {
      var rotated := Next(found, Rotate(pid), days);
      assert rotated.handlers[pid] == Rotated(sys.store.tokens[token].userId);
      assert Next(rotated, Save(pid, now), days).handlers
          == sys.handlers[pid := Answered(Issued(|sys.store.tokens|))];
    }
  }

  // ---------- When one token is used twice ----------

  /** The step revokes the token. */
  predicate Revokes(sys: System, step: Step, token: nat)
    requires token < |sys.store.tokens|
  {
    match step
    case Rotate(pid) => pid in sys.handlers && sys.handlers[pid].Found? && sys.handlers[pid].token == token
    case Other(RevokeOp(userId)) => userId == sys.store.tokens[token].userId
    case _ => false
  }

  lemma NextToken(sys: System, step: Step, token: nat, days: int)
    requires token < |sys.store.tokens|
    ensures var d := Next(sys, step, days);
            && token < |d.store.tokens|
            && d.store.tokens[token]
               == sys.store.tokens[token].(revoked := sys.store.tokens[token].revoked || Revokes(sys, step, token))
  {
  }

  /** No step of the run revokes the token. */
  predicate NeverRevoked(sys: System, steps: seq<Step>, token: nat, days: int) {
    forall k | 0 <= k < |steps| ::
      var mid := Reach(sys, steps[..k], days);
      token < |mid.store.tokens| ==> !Revokes(mid, steps[k], token)
  }

  lemma NeverRevokedStep(sys: System, before: seq<Step>, last: Step, token: nat, days: int)
    requires token < |Reach(sys, before, days).store.tokens|
    ensures NeverRevoked(sys, before + [last], token, days)
            <==> NeverRevoked(sys, before, token, days) && !Revokes(Reach(sys, before, days), last, token)
  {
    var steps := before + [last];
    assert forall k | 0 <= k < |before| :: before[k] == steps[k] && before[..k] == steps[..k];
    assert steps[..|before|] == before && steps[|before|] == last;
  }

  lemma {:induction false} TokenAfter(sys: System, steps: seq<Step>, token: nat, days: int)
    requires token < |sys.store.tokens|
    ensures var d := Reach(sys, steps, days);
            && token < |d.store.tokens|
            && d.store.tokens[token]
               == sys.store.tokens[token].(
                    revoked := sys.store.tokens[token].revoked || !NeverRevoked(sys, steps, token, days))
  {
    if steps != [] {
      var before, last := steps[..|steps| - 1], steps[|steps| - 1];
      TokenAfter(sys, before, token, days);
      NextToken(Reach(sys, before, days), last, token, days);
      NeverRevokedStep(sys, before, last, token, days);
      assert before + [last] == steps;
    }
  }

  /** Exactly when a token is used twice: request p has found its token, any steps of any requests
      follow, and then a new request q finds the same token. It is accepted as well if and only if
      none of those steps revoked the token, neither a rotation nor a revocation of the user, and it
      comes in time and for an active user. */
  lemma SecondUseExactly(sys: System, p: nat, q: nat, token: nat, now: int, mid: seq<Step>, later: int, days: int)
    requires p !in sys.handlers && Next(sys, Find(p, token, now), days).handlers[p].Found?
    requires q !in Reach(Next(sys, Find(p, token, now), days), mid, days).handlers
    ensures var found := Next(sys, Find(p, token, now), days);
            var end := Reach(found, mid, days);
            Next(end, Find(q, token, later), days).handlers[q].Found?
            <==> && NeverRevoked(found, mid, token, days) && later <= sys.store.tokens[token].expiresAt
                 && sys.store.tokens[token].userId !in end.store.inactive
  {
    TokenAfter(Next(sys, Find(p, token, now), days), mid, token, days);
  }

  lemma TwoSteps(sys: System, a: Step, b: Step, days: int)
    ensures Reach(sys, [a, b], days) == Next(Next(sys, a, days), b, days)
  {
    OneStep(sys, [], a, days);
    OneStep(sys, [a], b, days);
    assert [] + [a] == [a] && [a] + [b] == [a, b];
  }

  lemma {:induction false} ReachAppend(sys: System, steps: seq<Step>, more: seq<Step>, days: int)
    ensures Reach(sys, steps + more, days) == Reach(Reach(sys, steps, days), more, days)
    decreases more
  {
    if more == [] {
      assert steps + more == steps;
    } else {
      assert (steps + more)[..|steps + more| - 1] == steps + more[..|more| - 1];
      ReachAppend(sys, steps, more[..|more| - 1], days);
    }
  }

  /** Two requests for one token, lookups first. */
  function OverlappingRun(p: nat, q: nat, token: nat, now: int): seq<Step> {
    [Find(p, token, now), Find(q, token, now)] + ([Rotate(p), Rotate(q)] + [Save(p, now), Save(q, now)])
  }

  /** Two requests that both look the token up first both get a new token. */
  lemma OverlappingRefreshesBothSucceed(sys: System, p: nat, q: nat, token: nat, now: int, days: int)
    requires p != q && p !in sys.handlers && q !in sys.handlers && Lookup(sys.store, token, now).Found?
    ensures Reach(sys, OverlappingRun(p, q, token, now), days).handlers
         == sys.handlers[p := Answered(Issued(|sys.store.tokens|))][q := Answered(Issued(|sys.store.tokens| + 1))]
  {
    var finds, rotates := [Find(p, token, now), Find(q, token, now)], [Rotate(p), Rotate(q)];
    ReachAppend(sys, finds, rotates + [Save(p, now), Save(q, now)], days);
    TwoSteps(sys, Find(p, token, now), Find(q, token, now), days);
    var found := Reach(sys, finds, days);
    ReachAppend(found, rotates, [Save(p, now), Save(q, now)], days);
    TwoSteps(found, Rotate(p), Rotate(q), days);
    TwoSteps(Reach(found, rotates, days), Save(p, now), Save(q, now), days);
  }

  // ---------- When revoking a user's tokens locks the user out ----------

  predicate LiveToken(s: Store, userId: string) {
    exists i | 0 <= i < |s.tokens| :: s.tokens[i].userId == userId && !s.tokens[i].revoked
  }

  /** A request of the user has been accepted and has not saved its new token yet. */
  predicate Carries(sys: System, pid: nat, userId: string) {
    pid in sys.handlers
    && match sys.handlers[pid]
       case Found(_, user) => user == userId
       case Rotated(user) => user == userId
       case Answered(_) => false
  }

  ghost predicate InFlight(sys: System, userId: string) {
    exists pid :: Carries(sys, pid, userId)
  }

  predicate NoLogin(steps: seq<Step>, userId: string) {
    forall k | 0 <= k < |steps| && steps[k].Other? && steps[k].op.LoginOp? :: steps[k].op.userId != userId
  }

  lemma AcceptedIsLive(s: Store, token: nat, now: int)
    ensures Lookup(s, token, now).Found? ==> LiveToken(s, Lookup(s, token, now).userId)
  {
  }

  lemma NextStaysOut(sys: System, step: Step, userId: string, days: int)
    requires !LiveToken(sys.store, userId) && !InFlight(sys, userId)
    requires step.Other? && step.op.LoginOp? ==> step.op.userId != userId
    ensures !LiveToken(Next(sys, step, days).store, userId) && !InFlight(Next(sys, step, days), userId)
  {
    var d := Next(sys, step, days);
    if step.Find? {
      AcceptedIsLive(sys.store, step.token, step.now);
    }
    forall pid
      ensures !Carries(d, pid, userId)
    {
      assert !Carries(sys, pid, userId);
    }
    if step.Save? {
      assert !Carries(sys, step.pid, userId);
    }
  }

  lemma {:induction false} StaysOut(sys: System, steps: seq<Step>, userId: string, days: int)
    requires !LiveToken(sys.store, userId) && !InFlight(sys, userId) && NoLogin(steps, userId)
    ensures !LiveToken(Reach(sys, steps, days).store, userId) && !InFlight(Reach(sys, steps, days), userId)
  {
    if steps != [] {
      var before := steps[..|steps| - 1];
      assert forall k | 0 <= k < |before| :: before[k] == steps[k];
      StaysOut(sys, before, userId, days);
      NextStaysOut(Reach(sys, before, days), steps[|steps| - 1], userId, days);
    }
  }

  /** The system right after all tokens of a user were revoked. */
  function RevokedAll(sys: System, userId: string): System { sys.(store := RevokeUser(sys.store, userId)) }

  ghost predicate GetsBackIn(sys: System, userId: string, days: int) {
    exists steps :: NoLogin(steps, userId) && LiveToken(Reach(sys, steps, days).store, userId)
  }

  lemma CarriedComesBack(sys: System, pid: nat, userId: string, days: int)
    requires Carries(sys, pid, userId)
    ensures GetsBackIn(sys, userId, days)
  {
    var steps := [Rotate(pid), Save(pid, 0)];
    OneStep(sys, [], Rotate(pid), days);
    OneStep(sys, [Rotate(pid)], Save(pid, 0), days);
    assert [] + [Rotate(pid)] == [Rotate(pid)] && [Rotate(pid)] + [Save(pid, 0)] == steps;
    var mid := Next(sys, Rotate(pid), days);
    assert mid.handlers[pid] == Rotated(userId);
    var end := Next(mid, Save(pid, 0), days);
    assert end.store.tokens[|mid.store.tokens|] == Token(userId, days * MS_PER_DAY, false);
    assert LiveToken(Reach(sys, steps, days).store, userId);
  }

  /** Exactly when revoking all tokens of a user fails to lock the user out: in some continuation in
      which the user does not log in the user holds a live token again, if and only if a request of
      the user was under way, accepted but without its new token saved. */
  lemma LockoutExactly(sys: System, userId: string, days: int)
    ensures GetsBackIn(RevokedAll(sys, userId), userId, days) <==> InFlight(sys, userId)
  {
    var d := RevokedAll(sys, userId);
    assert forall pid :: Carries(d, pid, userId) <==> Carries(sys, pid, userId);
    if InFlight(sys, userId) {
      var pid :| Carries(sys, pid, userId);
      CarriedComesBack(d, pid, userId, days);
    } else {
      forall steps | NoLogin(steps, userId)
        ensures !LiveToken(Reach(d, steps, days).store, userId)
      {
        StaysOut(d, steps, userId, days);
      }
    }
  }
}
