/** Refresh-token rotation: login, refresh and revocation as atomic requests. */
module RefreshTokens {
  /** A row of the token table. Token texts are random and unique, so a token is named by the
      position of its row. */
  datatype Token = Token(userId: string, expiresAt: int, revoked: bool)

  datatype Store = Store(tokens: seq<Token>, inactive: set<string>)

  datatype Answer = Issued(token: nat) | InvalidToken | Expired | Deactivated | Done

  const MS_PER_DAY := 86400000

  // ---------- The specification of each request ----------

  /** `createRefreshToken`, called by every way to log in or sign up. */
  function Issue(s: Store, userId: string, now: int, days: int): (Store, Answer) {
    (s.(tokens := s.tokens + [Token(userId, now + days * MS_PER_DAY, false)]), Issued(|s.tokens|))
  }

  function Revoke(tokens: seq<Token>, i: nat): seq<Token>
    requires i < |tokens|
  {
    tokens[i := tokens[i].(revoked := true)]
  }

  function Refresh(s: Store, token: nat, now: int, days: int): (Store, Answer) {
    if token >= |s.tokens| || s.tokens[token].revoked then (s, InvalidToken)
    else if now > s.tokens[token].expiresAt then (s, Expired)
    else if s.tokens[token].userId in s.inactive then (s, Deactivated)
    else Issue(s.(tokens := Revoke(s.tokens, token)), s.tokens[token].userId, now, days)
  }

  function RevokeUser(s: Store, userId: string): Store {
    s.(tokens := seq(|s.tokens|, i requires 0 <= i < |s.tokens| =>
      if s.tokens[i].userId == userId then s.tokens[i].(revoked := true) else s.tokens[i]))
  }

  // ---------- The service object ----------

  class AuthService {
    const refreshTokenExpiresInDays: int
    var tokens: seq<Token>
    var inactive: set<string>

    ghost function State(): Store
      reads this
    {
      Store(tokens, inactive)
    }

    constructor (days: int)
      ensures refreshTokenExpiresInDays == days && State() == Store([], {})
    {
      refreshTokenExpiresInDays := days;
      tokens, inactive := [], {};
    }

    method CreateRefreshToken(userId: string, now: int) returns (token: nat)
      modifies this`tokens
      ensures (State(), Issued(token)) == Issue(old(State()), userId, now, refreshTokenExpiresInDays)
    {
      token := |tokens|;
      tokens := tokens + [Token(userId, now + refreshTokenExpiresInDays * MS_PER_DAY, false)];
    }

    method RefreshToken(token: nat, now: int) returns (r: Answer)
      modifies this`tokens
      ensures (State(), r) == Refresh(old(State()), token, now, refreshTokenExpiresInDays)
    {
      if token >= |tokens| || tokens[token].revoked {
        return InvalidToken;
      }
      var row := tokens[token];
      if now > row.expiresAt {
        return Expired;
      }
      if row.userId in inactive {
        return Deactivated;
      }
      tokens := tokens[token := row.(revoked := true)];
      var issued := CreateRefreshToken(row.userId, now);
      return Issued(issued);
    }

    method RevokeUserRefreshTokens(userId: string)
      modifies this`tokens
      ensures State() == RevokeUser(old(State()), userId)
    {
      var i := 0;
      ghost var was := tokens;
      while i < |tokens|
        invariant 0 <= i <= |tokens| == |was|
        invariant forall k | 0 <= k < i ::
                    tokens[k] == if was[k].userId == userId then was[k].(revoked := true) else was[k]
        invariant forall k | i <= k < |was| :: tokens[k] == was[k]
        invariant inactive == old(inactive)
      {
        if tokens[i].userId == userId && !tokens[i].revoked {
          tokens := tokens[i := tokens[i].(revoked := true)];
        }
        i := i + 1;
      }
    }
  }

  // ---------- Runs ----------

  /** `ActiveOp` is an administrator switching an account on or off. */
  datatype Op =
    | LoginOp(userId: string, now: int)
    | RefreshOp(token: nat, now: int)
    | RevokeOp(userId: string)
    | ActiveOp(userId: string, active: bool)

  function Apply(s: Store, op: Op, days: int): (Store, Answer) {
    match op
    case LoginOp(userId, now) => Issue(s, userId, now, days)
    case RefreshOp(token, now) => Refresh(s, token, now, days)
    case RevokeOp(userId) => (RevokeUser(s, userId), Done)
    case ActiveOp(userId, active) =>
      (s.(inactive := if active then s.inactive - {userId} else s.inactive + {userId}), Done)
  }

  const EMPTY := Store([], {})

  function Run(ops: seq<Op>, days: int): Store {
    if ops == [] then EMPTY else Apply(Run(ops[..|ops| - 1], days), ops[|ops| - 1], days).0
  }

  /** The answer to the i-th request of a run. */
  function AnswerAt(ops: seq<Op>, i: nat, days: int): Answer
    requires i < |ops|
  {
    Apply(Run(ops[..i], days), ops[i], days).1
  }

  lemma {:induction false} RevokedForever(ops: seq<Op>, i: nat, token: nat, days: int)
    requires i <= |ops| && token < |Run(ops[..i], days).tokens| && Run(ops[..i], days).tokens[token].revoked
    ensures token < |Run(ops, days).tokens| && Run(ops, days).tokens[token].revoked
    decreases |ops|
  {
    if i == |ops| {
      assert ops[..i] == ops;
    } else {
      var before := ops[..|ops| - 1];
      assert before[..i] == ops[..i];
      RevokedForever(before, i, token, days);
    }
  }

  lemma RefreshedIsRevoked(s: Store, token: nat, now: int, days: int)
    requires Refresh(s, token, now, days).1.Issued?
    ensures token < |s.tokens| && Refresh(s, token, now, days).0.tokens[token].revoked
  {
  }

  /** Single use: a token that was refreshed once is invalid at every later request of the run. */
  lemma SingleUse(ops: seq<Op>, i: nat, j: nat, days: int)
    requires i < j < |ops| && ops[i].RefreshOp? && ops[j].RefreshOp? && ops[i].token == ops[j].token
    requires AnswerAt(ops, i, days).Issued?
    ensures AnswerAt(ops, j, days) == InvalidToken
  {
    RefreshedIsRevoked(Run(ops[..i], days), ops[i].token, ops[i].now, days);
    assert ops[..i + 1][..i] == ops[..i] && ops[..j][..i + 1] == ops[..i + 1];
    RevokedForever(ops[..j], i + 1, ops[i].token, days);
  }

  /** After `revokeUserRefreshTokens` no token the user held is ever accepted again. */
  lemma RevokedUserLockedOut(ops: seq<Op>, i: nat, j: nat, days: int)
    requires i < j < |ops| && ops[i].RevokeOp? && ops[j].RefreshOp?
    requires ops[j].token < |Run(ops[..i], days).tokens|
    requires Run(ops[..i], days).tokens[ops[j].token].userId == ops[i].userId
    ensures AnswerAt(ops, j, days) == InvalidToken
  {
    assert ops[..i + 1][..i] == ops[..i] && ops[..j][..i + 1] == ops[..i + 1];
    RevokedForever(ops[..j], i + 1, ops[j].token, days);
  }

  lemma {:induction false} OwnerAndExpiryKept(ops: seq<Op>, i: nat, token: nat, days: int)
    requires i <= |ops| && token < |Run(ops[..i], days).tokens|
    ensures var was, later := Run(ops[..i], days).tokens, Run(ops, days).tokens;
            && token < |later|
            && later[token].userId == was[token].userId && later[token].expiresAt == was[token].expiresAt
    decreases |ops|
  {
    if i == |ops| {
      assert ops[..i] == ops;
    } else {
      var before := ops[..|ops| - 1];
      assert before[..i] == ops[..i];
      OwnerAndExpiryKept(before, i, token, days);
    }
  }

  /** A token is accepted only for its lifetime: a refresh with a token that request i issued
      succeeds at most `days` days after request i, for a user that is active, and the token it
      gives belongs to the same user. */
  lemma AcceptedWithinLifetime(ops: seq<Op>, i: nat, j: nat, days: int)
    requires i < j < |ops| && (ops[i].LoginOp? || ops[i].RefreshOp?) && ops[j].RefreshOp?
    requires AnswerAt(ops, i, days) == Issued(ops[j].token) && AnswerAt(ops, j, days).Issued?
    ensures ops[j].now <= ops[i].now + days * 86400000
    ensures var earlier, next := Run(ops[..i + 1], days).tokens, AnswerAt(ops, j, days).token;
            var later := Run(ops[..j + 1], days).tokens;
            && ops[j].token < |earlier| && next < |later|
            && earlier[ops[j].token].userId !in Run(ops[..j], days).inactive
            && later[next].userId == earlier[ops[j].token].userId
  {
    assert ops[..i + 1][..i] == ops[..i] && ops[..j + 1][..j] == ops[..j] && ops[..j][..i + 1] == ops[..i + 1];
    OwnerAndExpiryKept(ops[..j], i + 1, ops[j].token, days);
  }

  // ---------- How every request is answered ----------

  /** The users of the tokens issued so far, in the order they were issued, from the requests and
      their answers alone. */
  function Owners(ops: seq<Op>, days: int): seq<string> {
    if ops == [] then []
    else
      var before, last := Owners(ops[..|ops| - 1], days), ops[|ops| - 1];
      if !AnswerAt(ops, |ops| - 1, days).Issued? then before
      else if last.LoginOp? then before + [last.userId]
      else if last.RefreshOp? && last.token < |before| then before + [before[last.token]]
      else before + [""]
  }

  lemma {:induction false} OwnersExactly(ops: seq<Op>, days: int)
    ensures |Owners(ops, days)| == |Run(ops, days).tokens|
    ensures forall t | 0 <= t < |Owners(ops, days)| :: Run(ops, days).tokens[t].userId == Owners(ops, days)[t]
  {
    if ops != [] {
      OwnersExactly(ops[..|ops| - 1], days);
    }
  }

  /** The account has been switched off and not on again. */
  predicate SwitchedOff(ops: seq<Op>, userId: string) {
    ops != []
    && var last := ops[|ops| - 1];
       if last.ActiveOp? && last.userId == userId then !last.active else SwitchedOff(ops[..|ops| - 1], userId)
  }

  lemma {:induction false} SwitchedOffExactly(ops: seq<Op>, userId: string, days: int)
    ensures userId in Run(ops, days).inactive <==> SwitchedOff(ops, userId)
  {
    if ops != [] {
      SwitchedOffExactly(ops[..|ops| - 1], userId, days);
    }
  }

  /** Request k used the token up, or revoked all tokens of its user. */
  predicate Spends(ops: seq<Op>, k: nat, token: nat, userId: string, days: int)
    requires k < |ops|
  {
    || (ops[k].RefreshOp? && ops[k].token == token && AnswerAt(ops, k, days).Issued?)
    || (ops[k].RevokeOp? && ops[k].userId == userId)
  }

  predicate Spent(ops: seq<Op>, from: nat, token: nat, userId: string, days: int) {
    exists k | from <= k < |ops| :: Spends(ops, k, token, userId, days)
  }

  lemma SpentStep(ops: seq<Op>, from: nat, token: nat, userId: string, days: int)
    requires from < |ops|
    ensures Spent(ops, from, token, userId, days)
            <==> Spent(ops[..|ops| - 1], from, token, userId, days) || Spends(ops, |ops| - 1, token, userId, days)
  {
    var before := ops[..|ops| - 1];
    forall k | 0 <= k < |before|
      ensures Spends(before, k, token, userId, days) <==> Spends(ops, k, token, userId, days)
    {
      assert before[..k] == ops[..k];
    }
  }

  lemma {:induction false} TokenAfter(ops: seq<Op>, from: nat, token: nat, days: int)
    requires from <= |ops| && token < |Run(ops[..from], days).tokens|
    ensures var was := Run(ops[..from], days).tokens[token];
            && token < |Run(ops, days).tokens|
            && Run(ops, days).tokens[token]
               == was.(revoked := was.revoked || Spent(ops, from, token, was.userId, days))
    decreases |ops|
  {
    if from == |ops| {
      assert ops[..from] == ops;
    } else {
      var before := ops[..|ops| - 1];
      assert before[..from] == ops[..from];
      TokenAfter(before, from, token, days);
      SpentStep(ops, from, token, Run(ops[..from], days).tokens[token].userId, days);
    }
  }

  /** The answer to every refresh with a token that was issued: it is invalid if and only if a request
      in between used it or revoked its user's tokens; otherwise it has expired if and only if `days`
      days have passed since it was issued; otherwise the account is deactivated if and only if it
      was switched off and not on again; otherwise it is accepted, and the next token is issued to
      the same user. */
  lemma RefreshAnsweredExactly(ops: seq<Op>, i: nat, j: nat, days: int)
    requires i < j < |ops| && ops[j].RefreshOp? && (ops[i].LoginOp? || ops[i].RefreshOp?)
    requires AnswerAt(ops, i, days) == Issued(ops[j].token)
    ensures var token, owners := ops[j].token, Owners(ops[..j], days);
            && token < |owners|
            && AnswerAt(ops, j, days)
               == (if Spent(ops[..j], i + 1, token, owners[token], days) then InvalidToken
                   else if ops[j].now > ops[i].now + days * 86400000 then Expired
                   else if SwitchedOff(ops[..j], owners[token]) then Deactivated
                   else Issued(|owners|))
            && (AnswerAt(ops, j, days).Issued? ==> Owners(ops[..j + 1], days) == owners + [owners[token]])
  {
    assert ops[..i + 1][..i] == ops[..i] && ops[..j + 1][..j] == ops[..j] && ops[..j][..i + 1] == ops[..i + 1];
    OwnersExactly(ops[..j], days);
    TokenAfter(ops[..j], i + 1, ops[j].token, days);
    SwitchedOffExactly(ops[..j], Owners(ops[..j], days)[ops[j].token], days);
  }

  /** The other requests: every login is given the next token, which belongs to the user who logged
      in, and a token that was never issued is invalid. */
  lemma OtherAnswersExactly(ops: seq<Op>, j: nat, days: int)
    requires j < |ops|
    ensures var owners := Owners(ops[..j], days);
            && (ops[j].LoginOp? ==>
                  AnswerAt(ops, j, days) == Issued(|owners|) && Owners(ops[..j + 1], days) == owners + [ops[j].userId])
            && (ops[j].RefreshOp? && ops[j].token >= |owners| ==> AnswerAt(ops, j, days) == InvalidToken)
            && (ops[j].RevokeOp? || ops[j].ActiveOp? ==> AnswerAt(ops, j, days) == Done)
  {
    assert ops[..j + 1][..j] == ops[..j];
    OwnersExactly(ops[..j], days);
  }

  /** Every token among the owners was issued by an earlier request, so the two cases above are all. */
  lemma {:induction false} IssuedBySomeone(ops: seq<Op>, token: nat, days: int) returns (i: nat)
    requires token < |Owners(ops, days)|
    ensures i < |ops| && AnswerAt(ops, i, days) == Issued(token) && (ops[i].LoginOp? || ops[i].RefreshOp?)
  {
    var before := ops[..|ops| - 1];
    OwnersExactly(before, days);
    if token < |Owners(before, days)| {
      i := IssuedBySomeone(before, token, days);
      assert before[..i] == ops[..i];
    } else {
      i := |ops| - 1;
    }
  }

  // ---------- Lineages ----------

  /** The login a newly issued token descends from: that of the refreshed token, or itself. */
  function NextRoots(s: Store, roots: seq<nat>, op: Op, days: int): seq<nat> {
    if !Apply(s, op, days).1.Issued? then roots
    else if op.RefreshOp? && op.token < |roots| then roots + [roots[op.token]]
    else roots + [|roots|]
  }

  /** For every token of a run the login it descends from. */
  function Roots(ops: seq<Op>, days: int): seq<nat> {
    if ops == [] then []
    else NextRoots(Run(ops[..|ops| - 1], days), Roots(ops[..|ops| - 1], days), ops[|ops| - 1], days)
  }

  function TokensOf(s: Store, userId: string): set<nat> {
    set r: nat | r < |s.tokens| && s.tokens[r].userId == userId
  }

  function NextEnded(s: Store, ended: set<nat>, op: Op): set<nat> {
    if op.RevokeOp? then ended + TokensOf(s, op.userId) else ended
  }

  /** The tokens, logins among them, whose user was revoked after they were issued. */
  function Ended(ops: seq<Op>, days: int): set<nat> {
    if ops == [] then {}
    else NextEnded(Run(ops[..|ops| - 1], days), Ended(ops[..|ops| - 1], days), ops[|ops| - 1])
  }

  predicate LiveIn(tokens: seq<Token>, roots: seq<nat>, r: nat, i: nat) {
    i < |tokens| == |roots| && roots[i] == r && !tokens[i].revoked
  }

  /** Token i descends from a login of the same user, issued no later. */
  predicate Rooted(tokens: seq<Token>, roots: seq<nat>, i: nat)
    requires i < |tokens| == |roots|
  {
    roots[i] <= i && roots[roots[i]] == roots[i] && tokens[i].userId == tokens[roots[i]].userId
  }

  /** A lineage belongs to one user. Its only unrevoked token, if any, is its latest; there is one
      exactly while the lineage has not been ended. */
  ghost predicate Lineages(tokens: seq<Token>, roots: seq<nat>, ended: set<nat>) {
    && |tokens| == |roots|
    && (forall i | 0 <= i < |roots| :: Rooted(tokens, roots, i))
    && (forall i, j | 0 <= i < |roots| && 0 <= j < |roots| && roots[i] == roots[j] && !tokens[i].revoked :: j <= i)
    && (forall i | 0 <= i < |roots| && roots[i] == i :: i !in ended <==> exists k: nat :: LiveIn(tokens, roots, i, k))
    && (forall r | r in ended :: r < |roots|)
  }

  lemma IssueKeepsLineages(tokens: seq<Token>, roots: seq<nat>, ended: set<nat>, t: Token)
    requires Lineages(tokens, roots, ended) && !t.revoked
    ensures Lineages(tokens + [t], roots + [|roots|], ended)
  {
    var tokens', roots' := tokens + [t], roots + [|roots|];
    assert LiveIn(tokens', roots', |roots|, |roots|);
    forall i | 0 <= i < |roots|
      ensures roots[i] < |roots| && Rooted(tokens', roots', i)
    {
      assert Rooted(tokens, roots, i);
    }
    LiveGrows(tokens, roots, t, |roots|);
  }

  /** Appending a token keeps the live tokens of every other lineage. */
  lemma LiveGrows(tokens: seq<Token>, roots: seq<nat>, t: Token, root: nat)
    requires |tokens| == |roots|
    ensures forall r: nat, k: nat | r != root || t.revoked ::
              LiveIn(tokens + [t], roots + [root], r, k) <==> LiveIn(tokens, roots, r, k)
  {
  }

  lemma RotateKeepsLineages(tokens: seq<Token>, roots: seq<nat>, ended: set<nat>, i: nat, t: Token)
    requires Lineages(tokens, roots, ended) && i < |tokens| && !tokens[i].revoked
    requires !t.revoked && t.userId == tokens[i].userId
    ensures Lineages(Revoke(tokens, i) + [t], roots + [roots[i]], ended)
  {
    var cut := Revoke(tokens, i);
    var tokens', roots' := cut + [t], roots + [roots[i]];
    assert Rooted(tokens, roots, i);
    assert forall k | 0 <= k < |roots| :: Rooted(tokens, roots, k) ==> Rooted(tokens', roots', k);
    assert LiveIn(tokens, roots, roots[i], i);
    assert LiveIn(tokens', roots', roots[i], |roots|);
    LiveGrows(cut, roots, t, roots[i]);
    assert forall r: nat, k: nat | r != roots[i] :: LiveIn(cut, roots, r, k) <==> LiveIn(tokens, roots, r, k);
    assert forall r: nat, k: nat | r != roots[i] :: LiveIn(tokens', roots', r, k) <==> LiveIn(tokens, roots, r, k);
  }

  lemma RevokeUserKeepsLineages(s: Store, roots: seq<nat>, ended: set<nat>, userId: string)
    requires Lineages(s.tokens, roots, ended)
    ensures Lineages(RevokeUser(s, userId).tokens, roots,
                     ended + TokensOf(s, userId))
  {
    var cut := RevokeUser(s, userId).tokens;
    assert forall k | 0 <= k < |roots| :: Rooted(s.tokens, roots, k) ==> Rooted(cut, roots, k);
    forall r, k | 0 <= r < |roots| && 0 <= k < |roots| && roots[r] == r
      ensures LiveIn(cut, roots, r, k) <==> LiveIn(s.tokens, roots, r, k) && s.tokens[r].userId != userId
    {
      assert Rooted(s.tokens, roots, k);
    }
  }

  lemma StepKeepsLineages(s: Store, roots: seq<nat>, ended: set<nat>, op: Op, days: int)
    requires Lineages(s.tokens, roots, ended)
    ensures Lineages(Apply(s, op, days).0.tokens, NextRoots(s, roots, op, days), NextEnded(s, ended, op))
  {
    match op
    case LoginOp(userId, now) =>
      IssueKeepsLineages(s.tokens, roots, ended, Token(userId, now + days * MS_PER_DAY, false));
    case RefreshOp(token, now) =>
      if Apply(s, op, days).1.Issued? {
        var next := Token(s.tokens[token].userId, now + days * MS_PER_DAY, false);
        RotateKeepsLineages(s.tokens, roots, ended, token, next);
      }
    case RevokeOp(userId) => RevokeUserKeepsLineages(s, roots, ended, userId);
    case ActiveOp(_, _) =>
  }

  lemma {:induction false} RunKeepsLineages(ops: seq<Op>, days: int)
    ensures Lineages(Run(ops, days).tokens, Roots(ops, days), Ended(ops, days))
  {
    if ops != [] {
      var before := ops[..|ops| - 1];
      RunKeepsLineages(before, days);
      StepKeepsLineages(Run(before, days), Roots(before, days), Ended(before, days), ops[|ops| - 1], days);
    }
  }

  /** Every login starts a lineage that stays within its user and has exactly one unrevoked token,
      the latest, until the user is revoked; from then on it has none. */
  lemma OneLiveTokenPerLogin(ops: seq<Op>, login: nat, days: int)
    requires login < |Roots(ops, days)| && Roots(ops, days)[login] == login
    ensures var tokens, roots := Run(ops, days).tokens, Roots(ops, days);
            && |tokens| == |roots|
            && (forall i | 0 <= i < |roots| && roots[i] == login :: tokens[i].userId == tokens[login].userId)
            && (forall i: nat, j: nat | LiveIn(tokens, roots, login, i) && LiveIn(tokens, roots, login, j) :: i == j)
            && (forall i: nat, j: nat | LiveIn(tokens, roots, login, i) && j < |roots| && roots[j] == login :: j <= i)
            && (login !in Ended(ops, days) <==> exists i: nat :: LiveIn(tokens, roots, login, i))
  {
    RunKeepsLineages(ops, days);
    var tokens, roots := Run(ops, days).tokens, Roots(ops, days);
    forall i | 0 <= i < |roots| && roots[i] == login
      ensures tokens[i].userId == tokens[login].userId
    {
      assert Rooted(tokens, roots, i);
    }
    forall i: nat, j: nat | LiveIn(tokens, roots, login, i) && LiveIn(tokens, roots, login, j)
      ensures i == j
    {
      assert roots[i] == roots[j] && !tokens[i].revoked && !tokens[j].revoked;
    }
  }
}
