/** Creating, confirming and ingesting tips: each request as one atomic step on the ledger. */
module TipLedger {
  import opened Options
  import opened TipTable

  const MAX_EVENT_AGE_MS := 300000

  /** What a request did, as its caller sees it. */
  datatype Outcome =
    | Stored(tip: Tip)
    | Confirmed(id: nat)
    | Withdrawn(id: nat)
    | Duplicate
    | Ignored
    | Failed(error: Error)

  // ---------- The specification of each request ----------

  function Insert(s: Ledger, t: Tip): (Ledger, Outcome) {
    if CanInsert(s.tips, t) then (s.(tips := s.tips + [t]), Stored(t)) else (s, Failed(UniqueViolation))
  }

  function Create(s: Ledger, dto: CreateTipDto, supporterId: Option<string>, cfg: Config): (Ledger, Outcome) {
    match TipOfDto(dto, supporterId, cfg)
    case Bad(e) => (s, Failed(e))
    case Good(t) => Insert(s, t)
  }

  /** An absent hash leaves the column as it is; the status becomes completed in any case. */
  function ConfirmedTip(t: Tip, hash: Option<string>): Tip {
    t.(transactionHash := if hash.Some? then hash else t.transactionHash, status := Completed)
  }

  function Confirm(s: Ledger, id: string, hash: Option<string>): (Ledger, Outcome) {
    match FindById(|s.tips|, id)
    case None => (s, Failed(TipNotFound))
    case Some(i) =>
      var t := ConfirmedTip(s.tips[i], hash);
      if CanUpdate(s.tips, i, t) then (s.(tips := s.tips[i := t]), Confirmed(i)) else (s, Failed(UniqueViolation))
  }

  /** A tip event stores its row and then notifies the creator. */
  function PersistTip(s: Ledger, e: Event, cfg: Config): (Ledger, Outcome) {
    match TipOfEvent(e.transactionHash, e.data, cfg)
    case Bad(error) => (s, Failed(error))
    case Good(t) =>
      if CanInsert(s.tips, t) then
        (Ledger(s.tips + [t], s.notes + [NoteFor(|s.tips|, t)]), Stored(t))
      else (s, Failed(UniqueViolation))
  }

  function NoteFor(id: nat, t: Tip): Note {
    Note(id, t.creatorId, t.senderWallet, t.amount, t.asset)
  }

  /** The tip a withdrawal event refers to, by id or else by hash. */
  function LinkedTip(tips: seq<Tip>, data: EventData): (i: Option<nat>)
    ensures i.Some? ==> i.value < |tips|
  {
    var id := ReadOptionalString(data.tipId);
    var hash := ReadOptionalString(data.tipTransactionHash);
    if id.Some? then FindById(|tips|, id.value)
    else if hash.Some? then FindByHash(tips, hash.value)
    else None
  }

  function WithdrawnTip(t: Tip, status: WithdrawalStatus, hash: string): Tip {
    t.(withdrawalStatus := status, withdrawalHash := Some(hash))
  }

  function PersistWithdrawal(s: Ledger, e: Event): (Ledger, Outcome) {
    match LinkedTip(s.tips, e.data)
    case None => (s, Ignored)
    case Some(i) =>
      match NormalizeWithdrawalStatus(e.data.status)
      case Bad(error) => (s, Failed(error))
      case Good(status) =>
        var t := WithdrawnTip(s.tips[i], status, e.transactionHash);
        if CanUpdate(s.tips, i, t) then (s.(tips := s.tips[i := t]), Withdrawn(i)) else (s, Failed(UniqueViolation))
  }

  /** Why an event is turned away before the database is asked. */
  function Screen(authentic: bool, now: int, e: Event): Result<(), Error> {
    if !authentic then Bad(InvalidSignature)
    else if e.timestamp.None? then Bad(InvalidTimestamp)
    else if Abs(now - e.timestamp.value) > MAX_EVENT_AGE_MS then Bad(OutsideReplayWindow)
    else if e.transactionHash == "" then Bad(MissingHash)
    else Good(())
  }

  function Abs(x: int): int { if x < 0 then -x else x }

  function Topic(e: Event): string {
    if e.topic == [] then "" else e.topic[|e.topic| - 1]
  }

  function HandleWebhook(s: Ledger, authentic: bool, now: int, e: Event, cfg: Config): (Ledger, Outcome) {
    match Screen(authentic, now, e)
    case Bad(error) => (s, Failed(error))
    case Good(_) =>
      if IsDuplicate(s.tips, e.transactionHash) then (s, Duplicate)
      else if Topic(e) == "tip" then PersistTip(s, e, cfg)
      else if Topic(e) == "withdrawal" then PersistWithdrawal(s, e)
      else if Topic(e) == "register" then (s, Ignored)
      else (s, Failed(UnsupportedTopic))
  }

  /** `after` is `before` with the withdrawal columns of one row rewritten. */
  predicate OneWithdrawn(before: seq<Tip>, after: seq<Tip>, hash: string) {
    exists i, status | 0 <= i < |before| && status in {WithdrawalPending, WithdrawalCompleted, WithdrawalFailed} ::
      after == before[i := WithdrawnTip(before[i], status, hash)]
  }

  /** A webhook changes something only if it is authentic, at most five minutes off the clock,
      carries a hash that stands in neither column, and is a tip or a withdrawal; it then adds one
      row and its notification, or rewrites the withdrawal columns of a single row. */
  lemma WebhookChangesOnlyWhen(s: Ledger, authentic: bool, now: int, e: Event, cfg: Config)
    ensures var d := HandleWebhook(s, authentic, now, e, cfg).0;
            d != s ==>
              && authentic && e.timestamp.Some? && -300000 <= now - e.timestamp.value <= 300000
              && e.transactionHash != "" && !IsDuplicate(s.tips, e.transactionHash)
              && (|| (Topic(e) == "tip" && |d.tips| == |s.tips| + 1 && d.tips[..|s.tips|] == s.tips
                      && d.notes == s.notes + [NoteFor(|s.tips|, d.tips[|s.tips|])])
                  || (Topic(e) == "withdrawal" && d.notes == s.notes
                      && OneWithdrawn(s.tips, d.tips, e.transactionHash)))
  {
    if Topic(e) == "tip" {
      TipChangesOnly(s, e, cfg);
    } else if Topic(e) == "withdrawal" {
      WithdrawalChangesOnly(s, e);
    }
  }

  lemma WithdrawalChangesOnly(s: Ledger, e: Event)
    ensures var d := PersistWithdrawal(s, e).0;
            d == s || (d.notes == s.notes && OneWithdrawn(s.tips, d.tips, e.transactionHash))
  {
    var linked, status := LinkedTip(s.tips, e.data), NormalizeWithdrawalStatus(e.data.status);
    if linked.Some? && status.Good? && PersistWithdrawal(s, e).0 != s {
      var i := linked.value;
      assert PersistWithdrawal(s, e).0.tips == s.tips[i := WithdrawnTip(s.tips[i], status.value, e.transactionHash)];
    }
  }

  lemma TipChangesOnly(s: Ledger, e: Event, cfg: Config)
    ensures var d := PersistTip(s, e, cfg).0;
            d == s || (|d.tips| == |s.tips| + 1 && d.tips[..|s.tips|] == s.tips
                       && d.notes == s.notes + [NoteFor(|s.tips|, d.tips[|s.tips|])])
  {
  }

  // ---------- The service object ----------

  class TipService {
    const cfg: Config
    var tips: seq<Tip>
    var notes: seq<Note>

    ghost function State(): Ledger
      reads this
    {
      Ledger(tips, notes)
    }

    constructor (cfg: Config)
      ensures this.cfg == cfg && State() == Ledger([], [])
    {
      this.cfg := cfg;
      tips, notes := [], [];
    }

    method Save(t: Tip) returns (r: Outcome)
      modifies this`tips
      ensures (State(), r) == Insert(old(State()), t)
    {
      if !CanInsert(tips, t) {
        return Failed(UniqueViolation);
      }
      tips := tips + [t];
      return Stored(t);
    }

    method CreateTip(dto: CreateTipDto, supporterId: Option<string>) returns (r: Outcome)
      modifies this
      ensures (State(), r) == Create(old(State()), dto, supporterId, cfg)
    {
      var row := TipOfDto(dto, supporterId, cfg);
      if row.Bad? {
        return Failed(row.error);
      }
      r := Save(row.value);
    }

    method ConfirmTip(id: string, hash: Option<string>) returns (r: Outcome)
      modifies this
      ensures (State(), r) == Confirm(old(State()), id, hash)
    {
      var found := FindById(|tips|, id);
      if found.None? {
        return Failed(TipNotFound);
      }
      var tip := tips[found.value];
      if hash.Some? {
        tip := tip.(transactionHash := hash);
      }
      tip := tip.(status := Completed);
      if !CanUpdate(tips, found.value, tip) {
        return Failed(UniqueViolation);
      }
      tips := tips[found.value := tip];
      return Confirmed(found.value);
    }

    method HandleContractWebhook(authentic: bool, now: int, e: Event) returns (r: Outcome)
      modifies this
      ensures (State(), r) == HandleWebhook(old(State()), authentic, now, e, cfg)
    {
      var screened := Screen(authentic, now, e);
      if screened.Bad? {
        return Failed(screened.error);
      }
      if IsDuplicate(tips, e.transactionHash) {
        return Duplicate;
      }
      match Topic(e) {
        case "tip" => r := PersistTipEvent(e);
        case "withdrawal" => r := PersistWithdrawalEvent(e);
        case "register" => r := Ignored;
        case _ => r := Failed(UnsupportedTopic);
      }
    }

    method PersistTipEvent(e: Event) returns (r: Outcome)
      modifies this
      ensures (State(), r) == PersistTip(old(State()), e, cfg)
    {
      var row := TipOfEvent(e.transactionHash, e.data, cfg);
      if row.Bad? {
        return Failed(row.error);
      }
      var id := |tips|;
      r := Save(row.value);
      if r.Stored? {
        notes := notes + [Note(id, r.tip.creatorId, r.tip.senderWallet, r.tip.amount, r.tip.asset)];
      }
    }

    method PersistWithdrawalEvent(e: Event) returns (r: Outcome)
      modifies this
      ensures (State(), r) == PersistWithdrawal(old(State()), e)
    {
      var found := LinkedTip(tips, e.data);
      if found.None? {
        return Ignored;
      }
      var tip := tips[found.value];
      var status := NormalizeWithdrawalStatus(e.data.status);
      if status.Bad? {
        return Failed(status.error);
      }
      tip := tip.(withdrawalStatus := status.value);
      tip := tip.(withdrawalHash := Some(e.transactionHash));
      if !CanUpdate(tips, found.value, tip) {
        return Failed(UniqueViolation);
      }
      tips := tips[found.value := tip];
      return Withdrawn(found.value);
    }
  }
}
