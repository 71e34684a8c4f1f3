/** Whole runs of atomic requests on the ledger. */
module LedgerRuns {
  import opened Options
  import Bytes
  import opened TipTable
  import opened TipLedger
  import opened Aggregates

  datatype Op =
    | CreateOp(dto: CreateTipDto, supporterId: Option<string>)
    | ConfirmOp(id: string, hash: Option<string>)
    | WebhookOp(authentic: bool, now: int, event: Event)

  function Apply(s: Ledger, op: Op, cfg: Config): (Ledger, Outcome) {
    match op
    case CreateOp(dto, supporterId) => Create(s, dto, supporterId, cfg)
    case ConfirmOp(id, hash) => Confirm(s, id, hash)
    case WebhookOp(authentic, now, event) => HandleWebhook(s, authentic, now, event, cfg)
  }

  const EMPTY := Ledger([], [])

  function RunOps(ops: seq<Op>, cfg: Config): Ledger {
    if ops == [] then EMPTY else Apply(RunOps(ops[..|ops| - 1], cfg), ops[|ops| - 1], cfg).0
  }

  /** The answers given along a run. */
  function History(ops: seq<Op>, cfg: Config): (h: seq<Outcome>)
    ensures |h| == |ops|
  {
    if ops == [] then []
    else History(ops[..|ops| - 1], cfg) + [Apply(RunOps(ops[..|ops| - 1], cfg), ops[|ops| - 1], cfg).1]
  }

  // ---------- The unique columns ----------

  ghost predicate ColumnsUnique(tips: seq<Tip>) {
    forall i, j | 0 <= i < |tips| && 0 <= j < |tips| && i != j ::
      && (tips[i].transactionHash.Some? ==> tips[i].transactionHash != tips[j].transactionHash)
      && (tips[i].withdrawalHash.Some? ==> tips[i].withdrawalHash != tips[j].withdrawalHash)
  }

  lemma InsertKeepsColumns(tips: seq<Tip>, t: Tip)
    requires ColumnsUnique(tips) && CanInsert(tips, t) && t.withdrawalHash == None
    ensures ColumnsUnique(tips + [t])
  {
    if t.transactionHash.Some? {
      assert forall i | 0 <= i < |tips| :: tips[i].transactionHash != Some(t.transactionHash.value);
    }
  }

  lemma UpdateKeepsColumns(tips: seq<Tip>, i: nat, t: Tip)
    requires ColumnsUnique(tips) && i < |tips| && CanUpdate(tips, i, t)
    ensures ColumnsUnique(tips[i := t])
  {
  }

  /** How the table changed: not at all, by one inserted row, or by one updated row. */
  ghost predicate Checked(tips: seq<Tip>, after: seq<Tip>) {
    || after == tips
    || (exists t :: after == tips + [t] && CanInsert(tips, t) && t.withdrawalHash == None)
    || exists i: nat, t | i < |tips| :: after == tips[i := t] && CanUpdate(tips, i, t)
  }

  lemma StepIsChecked(s: Ledger, op: Op, cfg: Config)
    ensures Checked(s.tips, Apply(s, op, cfg).0.tips)
  {
  }

  /** No run of requests of any kind breaks either unique column. */
  lemma {:induction false} RunKeepsColumns(ops: seq<Op>, cfg: Config)
    ensures ColumnsUnique(RunOps(ops, cfg).tips)
  {
    if ops != [] {
      var s, op := RunOps(ops[..|ops| - 1], cfg), ops[|ops| - 1];
      RunKeepsColumns(ops[..|ops| - 1], cfg);
      StepIsChecked(s, op, cfg);
      var after := Apply(s, op, cfg).0.tips;
      if t :| after == s.tips + [t] && CanInsert(s.tips, t) && t.withdrawalHash == None {
        InsertKeepsColumns(s.tips, t);
      } else if i: nat, t :| i < |s.tips| && after == s.tips[i := t] && CanUpdate(s.tips, i, t) {
        UpdateKeepsColumns(s.tips, i, t);
      }
    }
  }

  // ---------- Which requests are carried out ----------

  /** No row carries the hash, in either column. */
  predicate NewHash(tips: seq<Tip>, hash: string) {
    forall i | 0 <= i < |tips| :: tips[i].transactionHash != Some(hash) && tips[i].withdrawalHash != Some(hash)
  }

  /** After any run a creation request is stored if and only if it is valid and no row carries its
      hash as a tip's. It then adds the row that it stands for, and nobody is notified; otherwise
      nothing changes. */
  lemma RequestStoredExactly(ops: seq<Op>, dto: CreateTipDto, supporterId: Option<string>, cfg: Config)
    ensures var s := RunOps(ops, cfg);
            var (d, o) := Create(s, dto, supporterId, cfg);
            var hash := dto.transactionHash;
            && (o.Stored? <==>
                  && ValidRequest(dto, cfg)
                  && (Absent(hash) || forall i | 0 <= i < |s.tips| :: s.tips[i].transactionHash != hash))
            && (o.Stored? ==>
                  RequestRow(o.tip, dto, supporterId, cfg) && d.tips == s.tips + [o.tip] && d.notes == s.notes)
            && (!o.Stored? ==> d == s && o.Failed?)
  {
    CreatedTipExactly(dto, supporterId, cfg);
  }

  /** After any run a confirmation succeeds exactly when the id is that of a stored tip and no other
      tip carries the hash. The tip is then completed under that hash, or under its own when none was
      given; its other columns, the other tips and the notifications stay as they are. */
  lemma ConfirmExactly(ops: seq<Op>, id: string, hash: Option<string>, cfg: Config)
    ensures var s := RunOps(ops, cfg);
            var (d, o) := Confirm(s, id, hash);
            && (forall i: nat :: o == Confirmed(i) <==>
                  && i < |s.tips| && id == Bytes.NatText(i)
                  && (hash.Some? ==> forall j | 0 <= j < |s.tips| && j != i :: s.tips[j].transactionHash != hash))
            && (o.Confirmed? ==>
                  && o.id < |s.tips| && d.notes == s.notes
                  && d.tips == s.tips[o.id := s.tips[o.id].(
                                status := Completed,
                                transactionHash := if hash == None then s.tips[o.id].transactionHash else hash)])
            && (o == Failed(TipNotFound) <==> forall i | 0 <= i < |s.tips| :: id != Bytes.NatText(i))
            && (!o.Confirmed? ==> d == s && (o == Failed(TipNotFound) || o == Failed(UniqueViolation)))
  {
    RunKeepsColumns(ops, cfg);
    FindByIdExactly(|RunOps(ops, cfg).tips|, id);
  }

  /** The event was signed, is at most five minutes off the clock and names a transaction. */
  predicate Acceptable(authentic: bool, now: int, e: Event) {
    && authentic && e.timestamp.Some? && e.timestamp.value - 300000 <= now <= e.timestamp.value + 300000
    && e.transactionHash != ""
  }

  predicate HasTopic(e: Event, word: string) { e.topic != [] && e.topic[|e.topic| - 1] == word }

  lemma TopicsDiffer()
    ensures "tip" != "withdrawal" && "tip" != "register" && "withdrawal" != "register" && "" != "tip"
    ensures "" != "withdrawal" && "" != "register"
  {
    assert |"tip"| == 3 && |"withdrawal"| == 10 && |"register"| == 8;
  }

  lemma WebhookInParts(s: Ledger, authentic: bool, now: int, e: Event, cfg: Config)
    ensures Acceptable(authentic, now, e) <==> Screen(authentic, now, e) == Good(())
    ensures NewHash(s.tips, e.transactionHash) <==> !IsDuplicate(s.tips, e.transactionHash)
    ensures Acceptable(authentic, now, e) && NewHash(s.tips, e.transactionHash) && HasTopic(e, "tip") ==>
              HandleWebhook(s, authentic, now, e, cfg) == PersistTip(s, e, cfg)
    ensures Acceptable(authentic, now, e) && NewHash(s.tips, e.transactionHash) && HasTopic(e, "withdrawal") ==>
              HandleWebhook(s, authentic, now, e, cfg) == PersistWithdrawal(s, e)
    ensures !Acceptable(authentic, now, e) || !NewHash(s.tips, e.transactionHash) ==>
              var (d, o) := HandleWebhook(s, authentic, now, e, cfg);
              d == s && (o.Failed? || o == Duplicate)
  {
    TopicsDiffer();
  }

  /** Why a webhook is turned away, in any state: one answer for each reason, and each only for its
      reason. */
  lemma WebhookRefusedExactly(s: Ledger, authentic: bool, now: int, e: Event, cfg: Config)
    ensures var o := HandleWebhook(s, authentic, now, e, cfg).1;
            && (o == Failed(InvalidSignature) <==> !authentic)
            && (o == Failed(InvalidTimestamp) <==> authentic && e.timestamp == None)
            && (o == Failed(OutsideReplayWindow) <==>
                  && authentic && e.timestamp.Some?
                  && (now < e.timestamp.value - 300000 || now > e.timestamp.value + 300000))
            && (o == Failed(MissingHash) <==>
                  && authentic && e.timestamp.Some? && e.timestamp.value - 300000 <= now <= e.timestamp.value + 300000
                  && e.transactionHash == "")
            && (o == Duplicate <==> Acceptable(authentic, now, e) && !NewHash(s.tips, e.transactionHash))
            && (o == Failed(UnsupportedTopic) <==>
                  && Acceptable(authentic, now, e) && NewHash(s.tips, e.transactionHash)
                  && !HasTopic(e, "tip") && !HasTopic(e, "withdrawal") && !HasTopic(e, "register"))
  {
    TopicsDiffer();
    WebhookInParts(s, authentic, now, e, cfg);
    PayloadErrors(s, e, cfg);
  }

  lemma PayloadErrors(s: Ledger, e: Event, cfg: Config)
    ensures PersistTip(s, e, cfg).1 in {Failed(MissingField), Failed(UnsupportedAsset), Failed(InvalidAmount),
                                        Failed(CreatorNotFound), Failed(UniqueViolation)}
            || PersistTip(s, e, cfg).1.Stored?
    ensures PersistWithdrawal(s, e).1 in {Ignored, Failed(UnsupportedStatus), Failed(UniqueViolation)}
            || PersistWithdrawal(s, e).1.Withdrawn?
  {
  }

  /** After any run a tip event is stored if and only if it is acceptable, its hash stands in neither
      column and it is valid. It then adds the row that it stands for and one notification, which
      repeats the row's creator, sender, amount and asset; otherwise nothing changes. */
  lemma TipStoredExactly(ops: seq<Op>, authentic: bool, now: int, e: Event, cfg: Config)
    requires HasTopic(e, "tip")
    ensures var s := RunOps(ops, cfg);
            var (d, o) := HandleWebhook(s, authentic, now, e, cfg);
            && (o.Stored? <==>
                  Acceptable(authentic, now, e) && NewHash(s.tips, e.transactionHash) && ValidEvent(e.data, cfg))
            && (o.Stored? ==>
                  && EventRow(o.tip, e.transactionHash, e.data, cfg) && d.tips == s.tips + [o.tip]
                  && d.notes
                     == s.notes + [Note(|s.tips|, o.tip.creatorId, o.tip.senderWallet, o.tip.amount, o.tip.asset)])
            && (!o.Stored? ==> d == s)
  {
    var s := RunOps(ops, cfg);
    WebhookInParts(s, authentic, now, e, cfg);
    TipEventExactly(e.transactionHash, e.data, cfg);
    if NewHash(s.tips, e.transactionHash) && ValidEvent(e.data, cfg) {
      NewHashInserts(s.tips, TipOfEvent(e.transactionHash, e.data, cfg).value, e.transactionHash);
    }
  }

  lemma NewHashInserts(tips: seq<Tip>, t: Tip, hash: string)
    requires t.transactionHash == Some(hash) && t.withdrawalHash == None && !IsDuplicate(tips, hash)
    ensures CanInsert(tips, t)
  {
  }

  lemma NewHashUpdates(tips: seq<Tip>, i: nat, status: WithdrawalStatus, hash: string)
    requires ColumnsUnique(tips) && i < |tips| && !IsDuplicate(tips, hash)
    ensures CanUpdate(tips, i, WithdrawnTip(tips[i], status, hash))
  {
  }

  /** The tip a withdrawal event is about: the one whose id it gives, whatever else it says, or, if
      it gives no id, the one whose transaction it names. */
  predicate RefersTo(data: EventData, tips: seq<Tip>, i: nat) {
    i < |tips|
    && if Filled(data.tipId) then Trim(data.tipId.text) == Bytes.NatText(i)
       else Filled(data.tipTransactionHash) && tips[i].transactionHash == Some(Trim(data.tipTransactionHash.text))
  }

  lemma LinkedExactly(tips: seq<Tip>, data: EventData)
    requires ColumnsUnique(tips)
    ensures forall i: nat :: LinkedTip(tips, data) == Some(i) <==> RefersTo(data, tips, i)
  {
    ReadStringExactly(data.tipId);
    ReadStringExactly(data.tipTransactionHash);
    if Filled(data.tipId) {
      FindByIdExactly(|tips|, Trim(data.tipId.text));
    }
  }

  lemma WithdrawalDone(s: Ledger, e: Event)
    requires ColumnsUnique(s.tips) && NewHash(s.tips, e.transactionHash)
    ensures var (d, o) := PersistWithdrawal(s, e);
            && (o.Withdrawn? <==> exists i: nat, status ::
                  RefersTo(e.data, s.tips, i) && NamesStatus(e.data.status, status))
            && (o == Ignored <==> forall i: nat :: !RefersTo(e.data, s.tips, i))
            && (o.Withdrawn? ==> exists status ::
                  && RefersTo(e.data, s.tips, o.id) && NamesStatus(e.data.status, status) && d.notes == s.notes
                  && d.tips == s.tips[o.id := s.tips[o.id].(withdrawalStatus := status,
                                                            withdrawalHash := Some(e.transactionHash))])
            && (!o.Withdrawn? ==> d == s)
  {
    LinkedExactly(s.tips, e.data);
    StatusReadExactly(e.data.status);
    var linked, status := LinkedTip(s.tips, e.data), NormalizeWithdrawalStatus(e.data.status);
    if linked.Some? && status.Good? {
      assert RefersTo(e.data, s.tips, linked.value) && NamesStatus(e.data.status, status.value);
      NewHashUpdates(s.tips, linked.value, status.value, e.transactionHash);
    } else if linked.Some? {
      assert RefersTo(e.data, s.tips, linked.value);
    }
  }

  /** After any run a withdrawal event is applied if and only if it is acceptable, its hash stands in
      neither column, it refers to a stored tip and names one of the three statuses. That tip then
      carries that status and the event's hash, and nothing else changes. An acceptable event that
      refers to no stored tip is ignored, and no event that is not applied changes anything. */
  lemma WithdrawalAppliedExactly(ops: seq<Op>, authentic: bool, now: int, e: Event, cfg: Config)
    requires HasTopic(e, "withdrawal")
    ensures var s := RunOps(ops, cfg);
            var (d, o) := HandleWebhook(s, authentic, now, e, cfg);
            var admitted := Acceptable(authentic, now, e) && NewHash(s.tips, e.transactionHash);
            && (o.Withdrawn? <==> admitted && exists i: nat, status ::
                  RefersTo(e.data, s.tips, i) && NamesStatus(e.data.status, status))
            && (o == Ignored <==> admitted && forall i: nat :: !RefersTo(e.data, s.tips, i))
            && (o.Withdrawn? ==> exists status ::
                  && RefersTo(e.data, s.tips, o.id) && NamesStatus(e.data.status, status) && d.notes == s.notes
                  && d.tips == s.tips[o.id := s.tips[o.id].(withdrawalStatus := status,
                                                            withdrawalHash := Some(e.transactionHash))])
            && (!o.Withdrawn? ==> d == s)
  {
    var s := RunOps(ops, cfg);
    RunKeepsColumns(ops, cfg);
    WebhookInParts(s, authentic, now, e, cfg);
    if Acceptable(authentic, now, e) && NewHash(s.tips, e.transactionHash) {
      WithdrawalDone(s, e);
    }
  }

  /** In particular a withdrawal event without a status is not read as completed: a tip it refers
      to stays as it is, and the caller is told that the status is not supported. */
  lemma MissingStatusIsRejected(ops: seq<Op>, authentic: bool, now: int, e: Event, i: nat, cfg: Config)
    requires HasTopic(e, "withdrawal") && !Filled(e.data.status)
    requires Acceptable(authentic, now, e) && NewHash(RunOps(ops, cfg).tips, e.transactionHash)
    requires RefersTo(e.data, RunOps(ops, cfg).tips, i)
    ensures HandleWebhook(RunOps(ops, cfg), authentic, now, e, cfg) == (RunOps(ops, cfg), Failed(UnsupportedStatus))
  {
    RunKeepsColumns(ops, cfg);
    WebhookInParts(RunOps(ops, cfg), authentic, now, e, cfg);
    LinkedExactly(RunOps(ops, cfg).tips, e.data);
    StatusReadExactly(e.data.status);
  }

  // ---------- Conservation of amounts ----------

  /** What `getTipStats` groups by. */
  datatype Account = Account(creatorId: string, asset: Asset, assetIssuer: Option<string>)

  /** What it adds up for each group: amounts, or tips. */
  datatype Measure = Money | Pieces

  function AccountOf(t: Tip): Account { Account(t.creatorId, t.asset, t.assetIssuer) }

  function Weight(t: Tip, m: Measure): int { if m.Money? then t.amount else 1 }

  function ValueIn(t: Tip, a: Account, m: Measure): int {
    if t.status == Completed && AccountOf(t) == a then Weight(t, m) else 0
  }

  /** The sum over the completed tips of an account. */
  function Total(tips: seq<Tip>, a: Account, m: Measure): int {
    if tips == [] then 0 else Total(tips[..|tips| - 1], a, m) + ValueIn(tips[|tips| - 1], a, m)
  }

  lemma {:induction false} TotalUpdate(tips: seq<Tip>, i: nat, t: Tip, a: Account, m: Measure)
    requires i < |tips|
    ensures Total(tips[i := t], a, m) == Total(tips, a, m) - ValueIn(tips[i], a, m) + ValueIn(t, a, m)
  {
    var n := |tips| - 1;
    if i == n {
      assert tips[i := t][..n] == tips[..n];
    } else {
      TotalUpdate(tips[..n], i, t, a, m);
      assert tips[i := t][..n] == tips[..n][i := t];
    }
  }

  /** The tips handed out so far, as they were when first stored; a tip's id is its position. */
  function Issued(h: seq<Outcome>): seq<Tip> {
    if h == [] then []
    else Issued(h[..|h| - 1]) + if h[|h| - 1].Stored? then [h[|h| - 1].tip] else []
  }

  /** What one answer adds to an account, from the earlier answers alone: a tip stored complete, or
      the first confirmation of a tip that was stored without a hash. Nothing else. */
  function Credit(earlier: seq<Outcome>, o: Outcome, a: Account, m: Measure): int {
    match o
    case Stored(t) => ValueIn(t, a, m)
    case Confirmed(id) =>
      if id < |Issued(earlier)| && Issued(earlier)[id].status == Pending
         && AccountOf(Issued(earlier)[id]) == a && Confirmed(id) !in earlier
      then Weight(Issued(earlier)[id], m) else 0
    case _ => 0
  }

  function Credits(h: seq<Outcome>, a: Account, m: Measure): int {
    if h == [] then 0 else Credits(h[..|h| - 1], a, m) + Credit(h[..|h| - 1], h[|h| - 1], a, m)
  }

  /** Every row still has the money it was issued with, and is completed exactly if it was stored
      completed or has been confirmed. */
  ghost predicate Books(tips: seq<Tip>, h: seq<Outcome>) {
    && |Issued(h)| == |tips|
    && (forall i: nat | Confirmed(i) in h :: i < |tips|)
    && forall i | 0 <= i < |tips| ::
         && AccountOf(tips[i]) == AccountOf(Issued(h)[i]) && tips[i].amount == Issued(h)[i].amount
         && (tips[i].status == Completed <==> Issued(h)[i].status == Completed || Confirmed(i) in h)
  }

  predicate SameMoney(t: Tip, u: Tip) {
    AccountOf(t) == AccountOf(u) && t.amount == u.amount
  }

  /** How the table changed, as told by the answer. */
  predicate Effect(tips: seq<Tip>, after: seq<Tip>, o: Outcome) {
    match o
    case Stored(t) => after == tips + [t]
    case Confirmed(i) =>
      i < |tips| == |after| && after == tips[i := after[i]]
      && SameMoney(tips[i], after[i]) && after[i].status == Completed
    case Withdrawn(i) =>
      i < |tips| == |after| && after == tips[i := after[i]]
      && SameMoney(tips[i], after[i]) && after[i].status == tips[i].status
    case _ => after == tips
  }

  lemma StepEffect(s: Ledger, op: Op, cfg: Config)
    ensures Effect(s.tips, Apply(s, op, cfg).0.tips, Apply(s, op, cfg).1)
  {
  }

  lemma EffectKeepsBooks(tips: seq<Tip>, after: seq<Tip>, h: seq<Outcome>, o: Outcome)
    requires Books(tips, h) && Effect(tips, after, o)
    ensures Books(after, h + [o])
  {
    var g := h + [o];
    assert g[..|g| - 1] == h && g[|g| - 1] == o;
    assert forall i: nat :: Confirmed(i) in g <==> Confirmed(i) in h || Confirmed(i) == o;
  }

  lemma EffectConserves(tips: seq<Tip>, after: seq<Tip>, h: seq<Outcome>, o: Outcome, a: Account, m: Measure)
    requires Books(tips, h) && Effect(tips, after, o)
    ensures Total(after, a, m) == Total(tips, a, m) + Credit(h, o, a, m)
  {
    match o
    case Stored(t) => assert after[..|after| - 1] == tips;
    case Confirmed(i) => TotalUpdate(tips, i, after[i], a, m);
    case Withdrawn(i) => TotalUpdate(tips, i, after[i], a, m);
    case _ =>
  }

  lemma {:induction false} RunKeepsBooks(ops: seq<Op>, cfg: Config)
    ensures Books(RunOps(ops, cfg).tips, History(ops, cfg))
  {
    if ops != [] {
      var before := ops[..|ops| - 1];
      RunKeepsBooks(before, cfg);
      var (d, o) := Apply(RunOps(before, cfg), ops[|ops| - 1], cfg);
      StepEffect(RunOps(before, cfg), ops[|ops| - 1], cfg);
      EffectKeepsBooks(RunOps(before, cfg).tips, d.tips, History(before, cfg), o);
    }
  }

  /** Conservation: after any run, each account's total is the sum of what accepted tip events,
      tips created with a hash and first confirmations added, in amounts and in tips. Duplicates,
      re-confirmations, withdrawals and rejected requests add nothing. */
  lemma {:induction false} Conservation(ops: seq<Op>, cfg: Config, a: Account, m: Measure)
    ensures Total(RunOps(ops, cfg).tips, a, m) == Credits(History(ops, cfg), a, m)
  {
    if ops != [] {
      var before := ops[..|ops| - 1];
      var h := History(ops, cfg);
      Conservation(before, cfg, a, m);
      RunKeepsBooks(before, cfg);
      var (d, o) := Apply(RunOps(before, cfg), ops[|ops| - 1], cfg);
      StepEffect(RunOps(before, cfg), ops[|ops| - 1], cfg);
      EffectConserves(RunOps(before, cfg).tips, d.tips, History(before, cfg), o, a, m);
      assert h[..|h| - 1] == History(before, cfg);
    }
  }

  // ---------- getTipStats ----------

  /** `getTipStats`: the creator's completed tips grouped by asset and issuer. */
  function GetTipStats(tips: seq<Tip>, creatorId: string): seq<Group<(Asset, Option<string>)>> {
    GroupBy(Filter(tips, (t: Tip) => t.creatorId == creatorId && t.status == Completed),
            (t: Tip) => (t.asset, t.assetIssuer), (t: Tip) => t.amount)
  }

  lemma FilteredTwiceStep(tips: seq<Tip>, own: Tip -> bool, keep: Tip -> bool)
    requires tips != []
    ensures var before, last := tips[..|tips| - 1], tips[|tips| - 1];
            Filter(Filter(tips, own), keep)
            == if own(last) && keep(last) then Filter(Filter(before, own), keep) + [last]
               else Filter(Filter(before, own), keep)
  {
    var before, last := tips[..|tips| - 1], tips[|tips| - 1];
    FilterStep(tips, own);
    if own(last) {
      var mine := Filter(before, own) + [last];
      assert mine[..|mine| - 1] == Filter(before, own);
      FilterStep(mine, keep);
    }
  }

  lemma {:induction false} FilteredIsTotal(
      tips: seq<Tip>, a: Account, own: Tip -> bool, keep: Tip -> bool, amount: Tip -> int)
    requires forall t: Tip :: own(t) && keep(t) <==> t.status == Completed && AccountOf(t) == a
    requires forall t: Tip :: amount(t) == t.amount
    ensures Sum(Filter(Filter(tips, own), keep), amount) == Total(tips, a, Money)
    ensures |Filter(Filter(tips, own), keep)| == Total(tips, a, Pieces)
  {
    if tips != [] {
      var before, last := tips[..|tips| - 1], tips[|tips| - 1];
      FilteredIsTotal(before, a, own, keep, amount);
      FilteredTwiceStep(tips, own, keep);
      SumAppend(Filter(Filter(before, own), keep), last, amount);
    }
  }

  /** The row of `getTipStats` for an asset and issuer: the number and the sum of the creator's
      completed tips. */
  lemma StatsReportTotal(tips: seq<Tip>, a: Account)
    ensures var row := RowFor(GetTipStats(tips, a.creatorId), (a.asset, a.assetIssuer));
            row.total == Total(tips, a, Money) && row.count == Total(tips, a, Pieces)
    ensures DistinctKeys(GetTipStats(tips, a.creatorId))
  {
    var own := (t: Tip) => t.creatorId == a.creatorId && t.status == Completed;
    var keep := (t: Tip) => (t.asset, t.assetIssuer) == (a.asset, a.assetIssuer);
    var key := (t: Tip) => (t.asset, t.assetIssuer);
    var amount := (t: Tip) => t.amount;
    assert GetTipStats(tips, a.creatorId) == GroupBy(Filter(tips, own), key, amount);
    GroupIsFilteredSum(Filter(tips, own), key, amount, (a.asset, a.assetIssuer), keep);
    GroupsAddUp(Filter(tips, own), key, amount);
    forall t: Tip
      ensures own(t) && keep(t) <==> t.status == Completed && AccountOf(t) == a
    {
      assert own(t) <==> t.creatorId == a.creatorId && t.status == Completed;
      assert keep(t) <==> t.asset == a.asset && t.assetIssuer == a.assetIssuer;
    }
    FilteredIsTotal(tips, a, own, keep, amount);
  }

  /** Conservation as the API shows it: after any run `getTipStats` has one row for each asset and
      issuer, and every row gives the number and the sum of the credits in the run's answers. */
  lemma StatsConserved(ops: seq<Op>, cfg: Config, creatorId: string)
    ensures var stats, h := GetTipStats(RunOps(ops, cfg).tips, creatorId), History(ops, cfg);
            && DistinctKeys(stats)
            && (forall i | 0 <= i < |stats| ::
                  var a := Account(creatorId, stats[i].key.0, stats[i].key.1);
                  stats[i].total == Credits(h, a, Money) && stats[i].count == Credits(h, a, Pieces))
            && forall asset, issuer ::
                 RowFor(stats, (asset, issuer)).count == Credits(h, Account(creatorId, asset, issuer), Pieces)
  {
    var stats, h := GetTipStats(RunOps(ops, cfg).tips, creatorId), History(ops, cfg);
    forall asset, issuer
      ensures RowFor(stats, (asset, issuer)).count == Credits(h, Account(creatorId, asset, issuer), Pieces)
      ensures RowFor(stats, (asset, issuer)).total == Credits(h, Account(creatorId, asset, issuer), Money)
      ensures DistinctKeys(stats)
    {
      var a := Account(creatorId, asset, issuer);
      StatsReportTotal(RunOps(ops, cfg).tips, a);
      Conservation(ops, cfg, a, Money);
      Conservation(ops, cfg, a, Pieces);
    }
    StatsReportTotal(RunOps(ops, cfg).tips, Account(creatorId, XLM, None));
    forall i | 0 <= i < |stats|
      ensures RowFor(stats, stats[i].key) == stats[i]
    {
      RowOfOwnKey(stats, i);
    }
    forall i | 0 <= i < |stats|
      ensures var a := Account(creatorId, stats[i].key.0, stats[i].key.1);
              stats[i].total == Credits(h, a, Money) && stats[i].count == Credits(h, a, Pieces)
    {
      assert (stats[i].key.0, stats[i].key.1) == stats[i].key;
      assert RowFor(stats, stats[i].key) == stats[i];
      assert RowFor(stats, (stats[i].key.0, stats[i].key.1)).count
          == Credits(h, Account(creatorId, stats[i].key.0, stats[i].key.1), Pieces);
    }
  }
}
