/** Webhook handlers that run at the same time. Each handler is split where the code awaits the
    database: the duplicate check, loading the linked tip, saving, and notifying. Any number of
    handlers interleave in any order, and any of them may die between two steps. */
module WebhookInterleaving {
  import opened Options
  import opened TipTable
  import opened TipLedger
  import opened LedgerRuns
  import opened WebhookLog

  /** Where a handler stands. `Notifying` carries the id of the row it saved, `SavingWithdrawal`
      the id of the tip it loaded. */
  datatype Phase =
    | Checking(event: Event)
    | SavingTip(event: Event)
    | LoadingLinked(event: Event)
    | SavingWithdrawal(id: nat, status: WithdrawalStatus, hash: string)
    | Notifying(id: nat)
    | Finished

  datatype System = System(tips: seq<Tip>, notes: seq<Note>, handlers: map<nat, Phase>)

  /** `Arrive` starts a handler for an event that passed the signature, freshness and hash checks;
      `Advance` lets a handler do its next step; `Crash` ends it. */
  datatype Action =
    | Arrive(pid: nat, event: Event)
    | Advance(pid: nat)
    | Crash(pid: nat)

  const START := System([], [], map[])

  function Move(sys: System, pid: nat, phase: Phase): System {
    sys.(handlers := sys.handlers[pid := phase])
  }

  /** The check on both columns, and the branch on the topic. */
  function CheckStep(sys: System, pid: nat, e: Event): System {
    if IsDuplicate(sys.tips, e.transactionHash) then Move(sys, pid, Finished)
    else if Topic(e) == "tip" then Move(sys, pid, SavingTip(e))
    else if Topic(e) == "withdrawal" then Move(sys, pid, LoadingLinked(e))
    else Move(sys, pid, Finished)
  }

  /** Saving goes through the unique constraint alone; the earlier check is not repeated. */
  function SaveTipStep(sys: System, pid: nat, e: Event, cfg: Config): System {
    var row := TipOfEvent(e.transactionHash, e.data, cfg);
    if row.Good? && CanInsert(sys.tips, row.value) then
      Move(sys.(tips := sys.tips + [row.value]), pid, Notifying(|sys.tips|))
    else Move(sys, pid, Finished)
  }

  function LoadStep(sys: System, pid: nat, e: Event): System {
    var linked := LinkedTip(sys.tips, e.data);
    var status := NormalizeWithdrawalStatus(e.data.status);
    if linked.Some? && status.Good? then
      Move(sys, pid, SavingWithdrawal(linked.value, status.value, e.transactionHash))
    else Move(sys, pid, Finished)
  }

  /** Saving a loaded tip writes the two withdrawal columns it changed. */
  function SaveWithdrawalStep(sys: System, pid: nat, id: nat, status: WithdrawalStatus, hash: string): System {
    if id < |sys.tips| && CanUpdate(sys.tips, id, WithdrawnTip(sys.tips[id], status, hash)) then
      Move(sys.(tips := sys.tips[id := WithdrawnTip(sys.tips[id], status, hash)]), pid, Finished)
    else Move(sys, pid, Finished)
  }

  function NotifyStep(sys: System, pid: nat, id: nat): System {
    if id < |sys.tips| then Move(sys.(notes := sys.notes + [NoteFor(id, sys.tips[id])]), pid, Finished)
    else Move(sys, pid, Finished)
  }

  function AdvanceStep(sys: System, pid: nat, cfg: Config): System
    requires pid in sys.handlers
  {
    match sys.handlers[pid]
    case Checking(e) => CheckStep(sys, pid, e)
    case SavingTip(e) => SaveTipStep(sys, pid, e, cfg)
    case LoadingLinked(e) => LoadStep(sys, pid, e)
    case SavingWithdrawal(id, status, hash) => SaveWithdrawalStep(sys, pid, id, status, hash)
    case Notifying(id) => NotifyStep(sys, pid, id)
    case Finished => sys
  }

  function Next(sys: System, a: Action, cfg: Config): System {
    match a
    case Arrive(pid, e) => if pid in sys.handlers then sys else Move(sys, pid, Checking(e))
    case Advance(pid) => if pid in sys.handlers then AdvanceStep(sys, pid, cfg) else sys
    case Crash(pid) => if pid in sys.handlers then Move(sys, pid, Finished) else sys
  }

  function Reach(actions: seq<Action>, cfg: Config): System {
    if actions == [] then START else Next(Reach(actions[..|actions| - 1], cfg), actions[|actions| - 1], cfg)
  }

  // ---------- What every reachable state satisfies ----------

  ghost predicate UniqueTips(tips: seq<Tip>) {
    forall i, j | 0 <= i < j < |tips| && tips[i].transactionHash.Some? ::
      tips[i].transactionHash != tips[j].transactionHash
  }

  /** Notifications are about stored tips, say what the tips say, and never two about one tip. */
  ghost predicate NotesFit(tips: seq<Tip>, notes: seq<Note>) {
    && (forall n | 0 <= n < |notes| :: notes[n].tip < |tips| && notes[n] == NoteFor(notes[n].tip, tips[notes[n].tip]))
    && forall m, n | 0 <= m < n < |notes| :: notes[m].tip != notes[n].tip
  }

  predicate Noted(notes: seq<Note>, id: nat) {
    exists n | 0 <= n < |notes| :: notes[n].tip == id
  }

  /** A handler about to notify owns its row: nobody else is going to notify it or has. */
  ghost predicate Owners(sys: System) {
    && (forall p | p in sys.handlers && sys.handlers[p].Notifying? ::
          sys.handlers[p].id < |sys.tips| && !Noted(sys.notes, sys.handlers[p].id))
    && forall p, q | p in sys.handlers && q in sys.handlers && p != q
                     && sys.handlers[p].Notifying? && sys.handlers[q].Notifying? ::
         sys.handlers[p].id != sys.handlers[q].id
  }

  ghost predicate Inv(sys: System) {
    && UniqueTips(sys.tips)
    && (forall i | 0 <= i < |sys.tips| :: sys.tips[i].transactionHash.Some?)
    && NotesFit(sys.tips, sys.notes)
    && Owners(sys)
  }

  lemma SaveTipKeepsInv(sys: System, pid: nat, e: Event, cfg: Config)
    requires Inv(sys) && pid in sys.handlers && sys.handlers[pid] == SavingTip(e)
    ensures Inv(SaveTipStep(sys, pid, e, cfg))
  {
    var row := TipOfEvent(e.transactionHash, e.data, cfg);
    if row.Good? && CanInsert(sys.tips, row.value) {
      InsertKeepsInv(sys, pid, row.value);
    }
  }

  lemma InsertKeepsInv(sys: System, pid: nat, t: Tip)
    requires Inv(sys) && pid in sys.handlers && !sys.handlers[pid].Notifying?
    requires t.transactionHash.Some? && CanInsert(sys.tips, t)
    ensures Inv(Move(sys.(tips := sys.tips + [t]), pid, Notifying(|sys.tips|)))
  {
    assert forall i | 0 <= i < |sys.tips| :: (sys.tips + [t])[i] == sys.tips[i];
    assert !Noted(sys.notes, |sys.tips|);
  }

  lemma WithdrawalKeepsInv(sys: System, pid: nat, id: nat, status: WithdrawalStatus, hash: string)
    requires Inv(sys) && pid in sys.handlers
    ensures Inv(SaveWithdrawalStep(sys, pid, id, status, hash))
  {
  }

  lemma NotifyKeepsInv(sys: System, pid: nat)
    requires Inv(sys) && pid in sys.handlers && sys.handlers[pid].Notifying?
    ensures Inv(NotifyStep(sys, pid, sys.handlers[pid].id))
  {
    var id := sys.handlers[pid].id;
    var notes := sys.notes + [NoteFor(id, sys.tips[id])];
    assert forall n | 0 <= n < |sys.notes| :: notes[n] == sys.notes[n];
    assert forall i: nat :: Noted(notes, i) ==> Noted(sys.notes, i) || i == id;
  }

  lemma MoveKeepsInv(sys: System, pid: nat, phase: Phase)
    requires Inv(sys) && !phase.Notifying?
    ensures Inv(Move(sys, pid, phase))
  {
  }

  lemma AdvanceKeepsInv(sys: System, pid: nat, cfg: Config)
    requires Inv(sys) && pid in sys.handlers
    ensures Inv(AdvanceStep(sys, pid, cfg))
  {
    match sys.handlers[pid]
    case Checking(e) =>
      MoveKeepsInv(sys, pid, CheckStep(sys, pid, e).handlers[pid]);
    case LoadingLinked(e) =>
      MoveKeepsInv(sys, pid, LoadStep(sys, pid, e).handlers[pid]);
    case SavingTip(e) => SaveTipKeepsInv(sys, pid, e, cfg);
    case SavingWithdrawal(id, status, hash) => WithdrawalKeepsInv(sys, pid, id, status, hash);
    case Notifying(id) => NotifyKeepsInv(sys, pid);
    case Finished =>
  }

  lemma NextKeepsInv(sys: System, a: Action, cfg: Config)
    requires Inv(sys)
    ensures Inv(Next(sys, a, cfg))
  {
    match a
    case Arrive(pid, e) =>
      if pid !in sys.handlers { MoveKeepsInv(sys, pid, Checking(e)); }
    case Advance(pid) =>
      if pid in sys.handlers { AdvanceKeepsInv(sys, pid, cfg); }
    case Crash(pid) =>
      MoveKeepsInv(sys, pid, Finished);
  }

  lemma {:induction false} ReachableInv(actions: seq<Action>, cfg: Config)
    ensures Inv(Reach(actions, cfg))
  {
    if actions != [] {
      ReachableInv(actions[..|actions| - 1], cfg);
      NextKeepsInv(Reach(actions[..|actions| - 1], cfg), actions[|actions| - 1], cfg);
    }
  }

  /** At most once, in every interleaving and with any crashes: two tips never share a transaction
      hash, two notifications never concern the same hash, and every notification belongs to a
      stored tip and repeats its creator, sender, amount and asset. */
  lemma AtMostOncePerHash(actions: seq<Action>, cfg: Config)
    ensures var sys := Reach(actions, cfg);
            && (forall i, j | 0 <= i < |sys.tips| && 0 <= j < |sys.tips|
                              && sys.tips[i].transactionHash == sys.tips[j].transactionHash :: i == j)
            && (forall n | 0 <= n < |sys.notes| ::
                  var id := sys.notes[n].tip;
                  id < |sys.tips| && sys.notes[n] == NoteFor(id, sys.tips[id]))
            && (forall m, n | 0 <= m < |sys.notes| && 0 <= n < |sys.notes| ::
                  sys.tips[sys.notes[m].tip].transactionHash == sys.tips[sys.notes[n].tip].transactionHash ==> m == n)
  {
    ReachableInv(actions, cfg);
    var sys := Reach(actions, cfg);
    assert forall i, j | 0 <= i < |sys.tips| && 0 <= j < |sys.tips| && i != j ::
        sys.tips[i].transactionHash != sys.tips[j].transactionHash;
  }

  // ---------- Exactly once ----------

  /** Every stored tip has its notification, or a handler that is about to send it. */
  ghost predicate AllCared(sys: System) {
    forall i: nat | i < |sys.tips| ::
      Noted(sys.notes, i) || exists p | p in sys.handlers :: sys.handlers[p] == Notifying(i)
  }

  lemma MoveKeepsCare(sys: System, pid: nat, phase: Phase)
    requires AllCared(sys) && (pid in sys.handlers ==> !sys.handlers[pid].Notifying?)
    ensures AllCared(Move(sys, pid, phase))
  {
    var d := Move(sys, pid, phase);
    forall i: nat | i < |sys.tips| && !Noted(sys.notes, i)
      ensures exists p | p in d.handlers :: d.handlers[p] == Notifying(i)
    {
      var p :| p in sys.handlers && sys.handlers[p] == Notifying(i);
      assert d.handlers[p] == Notifying(i);
    }
  }

  lemma NotifyKeepsCare(sys: System, pid: nat)
    requires Inv(sys) && AllCared(sys) && pid in sys.handlers && sys.handlers[pid].Notifying?
    ensures AllCared(NotifyStep(sys, pid, sys.handlers[pid].id))
  {
    var id := sys.handlers[pid].id;
    var d := NotifyStep(sys, pid, id);
    assert d.notes[|sys.notes|].tip == id;
    forall i: nat | i < |d.tips|
      ensures Noted(d.notes, i) || exists p | p in d.handlers :: d.handlers[p] == Notifying(i)
    {
      if Noted(sys.notes, i) {
        var m :| 0 <= m < |sys.notes| && sys.notes[m].tip == i;
        assert d.notes[m].tip == i;
      } else if i != id {
        var p :| p in sys.handlers && sys.handlers[p] == Notifying(i);
        assert d.handlers[p] == Notifying(i);
      }
    }
  }

  /** A step that does not notify adds at most one tip, which its handler then owns. */
  lemma OtherStepAdds(sys: System, pid: nat, cfg: Config)
    requires pid in sys.handlers && !sys.handlers[pid].Notifying?
    ensures var d := AdvanceStep(sys, pid, cfg);
            && pid in d.handlers && d.handlers == sys.handlers[pid := d.handlers[pid]] && d.notes == sys.notes
            && (|d.tips| == |sys.tips| || (|d.tips| == |sys.tips| + 1 && d.handlers[pid] == Notifying(|sys.tips|)))
  {
  }

  lemma AdvanceKeepsCare(sys: System, pid: nat, cfg: Config)
    requires Inv(sys) && AllCared(sys) && pid in sys.handlers
    ensures AllCared(AdvanceStep(sys, pid, cfg))
  {
    if sys.handlers[pid].Notifying? {
      NotifyKeepsCare(sys, pid);
    } else {
      var d := AdvanceStep(sys, pid, cfg);
      OtherStepAdds(sys, pid, cfg);
      MoveKeepsCare(sys, pid, d.handlers[pid]);
    }
  }

  /** Action k ends a handler that has saved its tip and not yet notified it. */
  ghost predicate LosesNotice(actions: seq<Action>, k: nat, cfg: Config)
    requires k < |actions|
  {
    var sys := Reach(actions[..k], cfg);
    actions[k].Crash? && actions[k].pid in sys.handlers && sys.handlers[actions[k].pid].Notifying?
  }

  ghost predicate NoneLost(actions: seq<Action>, cfg: Config) {
    forall k: nat | k < |actions| :: !LosesNotice(actions, k, cfg)
  }

  lemma NoneLostBefore(actions: seq<Action>, cfg: Config)
    requires actions != [] && NoneLost(actions, cfg)
    ensures NoneLost(actions[..|actions| - 1], cfg) && !LosesNotice(actions, |actions| - 1, cfg)
  {
    var before := actions[..|actions| - 1];
    forall k: nat | k < |before|
      ensures !LosesNotice(before, k, cfg)
    {
      assert before[..k] == actions[..k] && !LosesNotice(actions, k, cfg);
    }
  }

  lemma {:induction false} NoneLostCares(actions: seq<Action>, cfg: Config)
    requires NoneLost(actions, cfg)
    ensures AllCared(Reach(actions, cfg))
  {
    if actions != [] {
      var before, a := actions[..|actions| - 1], actions[|actions| - 1];
      NoneLostBefore(actions, cfg);
      NoneLostCares(before, cfg);
      ReachableInv(before, cfg);
      NextKeepsCare(Reach(before, cfg), a, cfg);
    }
  }

  lemma NextKeepsCare(sys: System, a: Action, cfg: Config)
    requires Inv(sys) && AllCared(sys)
    requires a.Crash? && a.pid in sys.handlers ==> !sys.handlers[a.pid].Notifying?
    ensures AllCared(Next(sys, a, cfg))
  {
    match a
    case Arrive(pid, e) =>
      if pid !in sys.handlers { MoveKeepsCare(sys, pid, Checking(e)); }
    case Advance(pid) =>
      if pid in sys.handlers { AdvanceKeepsCare(sys, pid, cfg); }
    case Crash(pid) =>
      if pid in sys.handlers { MoveKeepsCare(sys, pid, Finished); }
  }

  /** How many notifications concern a tip. */
  function NoteCount(notes: seq<Note>, id: nat): nat {
    if notes == [] then 0
    else NoteCount(notes[..|notes| - 1], id) + if notes[|notes| - 1].tip == id then 1 else 0
  }

  lemma {:induction false} CountOfDistinct(notes: seq<Note>, id: nat)
    requires forall m, n | 0 <= m < n < |notes| :: notes[m].tip != notes[n].tip
    ensures NoteCount(notes, id) == if Noted(notes, id) then 1 else 0
  {
    if notes != [] {
      var before := notes[..|notes| - 1];
      CountOfDistinct(before, id);
      assert forall n | 0 <= n < |before| :: before[n] == notes[n];
      assert notes[|notes| - 1].tip == id ==> !Noted(before, id);
      assert Noted(before, id) ==> Noted(notes, id);
    }
  }

  /** A stored tip that nobody has notified and nobody is going to notify. */
  ghost predicate Forgotten(sys: System, id: nat, hash: string) {
    && id < |sys.tips| && sys.tips[id].transactionHash == Some(hash) && !Noted(sys.notes, id)
    && forall p | p in sys.handlers :: sys.handlers[p] != Notifying(id)
  }

  lemma AdvanceKeepsForgotten(sys: System, pid: nat, id: nat, hash: string, cfg: Config)
    requires Forgotten(sys, id, hash) && pid in sys.handlers
    ensures Forgotten(AdvanceStep(sys, pid, cfg), id, hash)
  {
    var d := AdvanceStep(sys, pid, cfg);
    assert |d.tips| >= |sys.tips| && d.tips[id].transactionHash == sys.tips[id].transactionHash;
    forall n | 0 <= n < |d.notes|
      ensures d.notes[n].tip != id
    {
      if n < |sys.notes| {
        assert d.notes[n] == sys.notes[n];
      }
    }
  }

  lemma {:induction false} ForgottenForever(before: seq<Action>, after: seq<Action>, id: nat, hash: string, cfg: Config)
    requires Forgotten(Reach(before, cfg), id, hash)
    ensures Forgotten(Reach(before + after, cfg), id, hash)
    decreases after
  {
    if after == [] {
      assert before + after == before;
    } else {
      var n := |after| - 1;
      ForgottenForever(before, after[..n], id, hash, cfg);
      assert (before + after)[..|before + after| - 1] == before + after[..n];
      var sys, a := Reach(before + after[..n], cfg), after[n];
      if a.Advance? && a.pid in sys.handlers {
        AdvanceKeepsForgotten(sys, a.pid, id, hash, cfg);
      }
    }
  }

  /** A handler that dies between saving and notifying loses its notification for good: whatever
      arrives later, redeliveries included, its tip stays stored and is never notified, because from
      then on its hash is a duplicate. */
  lemma LostNoticeStaysLost(before: seq<Action>, p: nat, after: seq<Action>, cfg: Config)
    requires p in Reach(before, cfg).handlers && Reach(before, cfg).handlers[p].Notifying?
    ensures var id := Reach(before, cfg).handlers[p].id;
            var sys := Reach(before + [Crash(p)] + after, cfg);
            && id < |Reach(before, cfg).tips| && id < |sys.tips|
            && sys.tips[id].transactionHash == Reach(before, cfg).tips[id].transactionHash
            && sys.tips[id].transactionHash.Some? && IsDuplicate(sys.tips, sys.tips[id].transactionHash.value)
            && NoteCount(sys.notes, id) == 0
  {
    var was := Reach(before, cfg);
    var id := was.handlers[p].id;
    ReachableInv(before, cfg);
    assert (before + [Crash(p)])[..|before|] == before;
    assert Forgotten(Reach(before + [Crash(p)], cfg), id, was.tips[id].transactionHash.value);
    ForgottenForever(before + [Crash(p)], after, id, was.tips[id].transactionHash.value, cfg);
    ReachableInv(before + [Crash(p)] + after, cfg);
    CountOfDistinct(Reach(before + [Crash(p)] + after, cfg).notes, id);
  }

  /** Exactly once, exactly when: after any run in which every handler has finished, each stored
      tip has exactly one notification if and only if no crash hit a handler between saving and
      notifying. Crashes anywhere else do no harm. */
  lemma ExactlyOnceWhenSettled(actions: seq<Action>, cfg: Config)
    requires forall p | p in Reach(actions, cfg).handlers :: Reach(actions, cfg).handlers[p] == Finished
    ensures (forall i: nat | i < |Reach(actions, cfg).tips| :: NoteCount(Reach(actions, cfg).notes, i) == 1)
            <==> NoneLost(actions, cfg)
  {
    var sys := Reach(actions, cfg);
    if NoneLost(actions, cfg) {
      NoneLostCares(actions, cfg);
      ReachableInv(actions, cfg);
      forall i: nat | i < |sys.tips|
        ensures NoteCount(sys.notes, i) == 1
      {
        CountOfDistinct(sys.notes, i);
      }
    } else {
      var k: nat :| k < |actions| && LosesNotice(actions, k, cfg);
      assert actions == actions[..k] + [actions[k]] + actions[k + 1..];
      LostNoticeStaysLost(actions[..k], actions[k].pid, actions[k + 1..], cfg);
    }
  }

  // ---------- One handler alone ----------

  lemma AdvanceMovesOne(sys: System, pid: nat, cfg: Config)
    requires pid in sys.handlers
    ensures var end := Next(sys, Advance(pid), cfg);
            pid in end.handlers && end.handlers == sys.handlers[pid := end.handlers[pid]]
  {
  }

  lemma SoloMovesOne(sys: System, pid: nat, e: Event, cfg: Config)
    requires pid !in sys.handlers
    ensures var s1 := Next(sys, Arrive(pid, e), cfg);
            var s4 := Next(Next(Next(s1, Advance(pid), cfg), Advance(pid), cfg), Advance(pid), cfg);
            pid in s4.handlers && s4.handlers == sys.handlers[pid := s4.handlers[pid]]
  {
    var s1 := Next(sys, Arrive(pid, e), cfg);
    var s2 := Next(s1, Advance(pid), cfg);
    AdvanceMovesOne(s1, pid, cfg);
    AdvanceMovesOne(s2, pid, cfg);
    AdvanceMovesOne(Next(s2, Advance(pid), cfg), pid, cfg);
  }

  /** A handler that nobody interrupts does in its steps exactly what the whole webhook does. */
  lemma SoloHandlerIsAtomic(sys: System, pid: nat, now: int, e: Event, cfg: Config)
    requires pid !in sys.handlers && Screen(true, now, e) == Good(())
    ensures var s1 := Next(sys, Arrive(pid, e), cfg);
            var s4 := Next(Next(Next(s1, Advance(pid), cfg), Advance(pid), cfg), Advance(pid), cfg);
            && s4.handlers == sys.handlers[pid := Finished]
            && Ledger(s4.tips, s4.notes) == HandleWebhook(Ledger(sys.tips, sys.notes), true, now, e, cfg).0
  {
    var s1 := Next(sys, Arrive(pid, e), cfg);
    var s2 := Next(s1, Advance(pid), cfg);
    SoloMovesOne(sys, pid, e, cfg);
    if s2.handlers[pid].SavingTip? {
      SoloTip(s2, pid, e, cfg);
    } else if s2.handlers[pid].LoadingLinked? {
      SoloWithdrawal(s2, pid, e, cfg);
    }
  }

  lemma SoloTip(sys: System, pid: nat, e: Event, cfg: Config)
    requires pid in sys.handlers && sys.handlers[pid] == SavingTip(e)
    ensures var end := Next(Next(sys, Advance(pid), cfg), Advance(pid), cfg);
            && end.handlers[pid] == Finished
            && Ledger(end.tips, end.notes) == PersistTip(Ledger(sys.tips, sys.notes), e, cfg).0
  {
    var row := TipOfEvent(e.transactionHash, e.data, cfg);
    if row.Good? && CanInsert(sys.tips, row.value) {
      assert (sys.tips + [row.value])[|sys.tips|] == row.value;
    }
  }

  lemma SoloWithdrawal(sys: System, pid: nat, e: Event, cfg: Config)
    requires pid in sys.handlers && sys.handlers[pid] == LoadingLinked(e)
    ensures var end := Next(Next(sys, Advance(pid), cfg), Advance(pid), cfg);
            && end.handlers[pid] == Finished
            && Ledger(end.tips, end.notes) == PersistWithdrawal(Ledger(sys.tips, sys.notes), e).0
  {
  }

  // ---------- When the two hash columns stay apart ----------

  /** The hashes of the events with a topic that arrive in a run. */
  function ArrivingHashes(actions: seq<Action>, topic: string): set<string> {
    set i | 0 <= i < |actions| && actions[i].Arrive? && Topic(actions[i].event) == topic ::
      actions[i].event.transactionHash
  }

  /** No arriving tip event shares its hash with an arriving withdrawal event. */
  predicate NoClash(actions: seq<Action>) {
    ArrivingHashes(actions, "tip") !! ArrivingHashes(actions, "withdrawal")
  }

  predicate EventFrom(e: Event, tips: set<string>, withdrawals: set<string>) {
    && (Topic(e) == "tip" ==> e.transactionHash in tips)
    && (Topic(e) == "withdrawal" ==> e.transactionHash in withdrawals)
  }

  /** The hash a handler is going to store comes from an event of its kind. */
  predicate PhaseFrom(phase: Phase, tips: set<string>, withdrawals: set<string>) {
    match phase
    case Checking(e) => EventFrom(e, tips, withdrawals)
    case SavingTip(e) => e.transactionHash in tips
    case LoadingLinked(e) => e.transactionHash in withdrawals
    case SavingWithdrawal(_, _, hash) => hash in withdrawals
    case Notifying(_) => true
    case Finished => true
  }

  predicate RowFrom(t: Tip, tips: set<string>, withdrawals: set<string>) {
    && (t.transactionHash.Some? ==> t.transactionHash.value in tips)
    && (t.withdrawalHash.Some? ==> t.withdrawalHash.value in withdrawals)
  }

  /** Every hash, stored or on its way, comes from an event of its kind; both columns are unique. */
  ghost predicate From(sys: System, tips: set<string>, withdrawals: set<string>) {
    && ColumnsUnique(sys.tips)
    && (forall i | 0 <= i < |sys.tips| :: RowFrom(sys.tips[i], tips, withdrawals))
    && forall p | p in sys.handlers :: PhaseFrom(sys.handlers[p], tips, withdrawals)
  }

  lemma AdvanceKeepsFrom(sys: System, pid: nat, tips: set<string>, withdrawals: set<string>, cfg: Config)
    requires From(sys, tips, withdrawals) && pid in sys.handlers
    ensures From(AdvanceStep(sys, pid, cfg), tips, withdrawals)
  {
    match sys.handlers[pid]
    case SavingTip(e) =>
      var row := TipOfEvent(e.transactionHash, e.data, cfg);
      if row.Good? && CanInsert(sys.tips, row.value) {
        InsertKeepsColumns(sys.tips, row.value);
      }
    case SavingWithdrawal(id, status, hash) => WithdrawalKeepsFrom(sys, pid, id, status, hash, tips, withdrawals);
    case _ =>
  }

  lemma WithdrawalKeepsFrom(sys: System, pid: nat, id: nat, status: WithdrawalStatus, hash: string,
                            tips: set<string>, withdrawals: set<string>)
    requires From(sys, tips, withdrawals) && pid in sys.handlers && hash in withdrawals
    ensures From(SaveWithdrawalStep(sys, pid, id, status, hash), tips, withdrawals)
  {
    if id < |sys.tips| && CanUpdate(sys.tips, id, WithdrawnTip(sys.tips[id], status, hash)) {
      UpdateKeepsColumns(sys.tips, id, WithdrawnTip(sys.tips[id], status, hash));
      assert RowFrom(sys.tips[id], tips, withdrawals);
    }
  }

  lemma {:induction false} ReachFrom(actions: seq<Action>, tips: set<string>, withdrawals: set<string>, cfg: Config)
    requires forall i | 0 <= i < |actions| && actions[i].Arrive? :: EventFrom(actions[i].event, tips, withdrawals)
    ensures From(Reach(actions, cfg), tips, withdrawals)
  {
    if actions != [] {
      var before, a := actions[..|actions| - 1], actions[|actions| - 1];
      ReachFrom(before, tips, withdrawals, cfg);
      if a.Advance? && a.pid in Reach(before, cfg).handlers {
        AdvanceKeepsFrom(Reach(before, cfg), a.pid, tips, withdrawals, cfg);
      }
    }
  }

  /** In every interleaving, with any crashes, in which no arriving tip event shares its hash with
      an arriving withdrawal event, a hash occurs at most once across both columns, as it does when
      webhooks are handled one after another. */
  lemma ColumnsStayApart(actions: seq<Action>, cfg: Config)
    requires NoClash(actions)
    ensures CrossUnique(Reach(actions, cfg).tips)
    ensures forall hash :: Occurrences(Reach(actions, cfg).tips, hash) <= 1
  {
    var tips, withdrawals := ArrivingHashes(actions, "tip"), ArrivingHashes(actions, "withdrawal");
    var sys := Reach(actions, cfg);
    ReachFrom(actions, tips, withdrawals, cfg);
    forall i, j | 0 <= i < |sys.tips| && 0 <= j < |sys.tips| && sys.tips[i].transactionHash.Some?
      ensures sys.tips[i].transactionHash != sys.tips[j].withdrawalHash
    {
      assert RowFrom(sys.tips[i], tips, withdrawals) && RowFrom(sys.tips[j], tips, withdrawals);
    }
    forall hash
      ensures Occurrences(sys.tips, hash) <= 1
    {
      CrossUniqueOccursOnce(sys.tips, hash);
    }
  }

  // ---------- No valid event is lost ----------

  /** Handler p is still on its way to storing its event, or the hash is stored. */
  predicate Carried(sys: System, p: nat, e: Event) {
    || HasHash(sys.tips, e.transactionHash)
    || (p in sys.handlers && (sys.handlers[p] == Checking(e) || sys.handlers[p] == SavingTip(e)))
  }

  lemma AdvanceKeepsHash(sys: System, pid: nat, hash: string, cfg: Config)
    requires pid in sys.handlers && HasHash(sys.tips, hash)
    ensures HasHash(AdvanceStep(sys, pid, cfg).tips, hash)
  {
    var i :| 0 <= i < |sys.tips| && sys.tips[i].transactionHash == Some(hash);
    assert AdvanceStep(sys, pid, cfg).tips[i].transactionHash == Some(hash);
  }

  lemma AdvanceCarries(sys: System, p: nat, e: Event, cfg: Config)
    requires p in sys.handlers && (sys.handlers[p] == Checking(e) || sys.handlers[p] == SavingTip(e))
    requires Topic(e) == "tip" && TipOfEvent(e.transactionHash, e.data, cfg).Good?
    requires !HasWithdrawalHash(sys.tips, e.transactionHash)
    ensures Carried(AdvanceStep(sys, p, cfg), p, e)
  {
    var row := TipOfEvent(e.transactionHash, e.data, cfg).value;
    if sys.handlers[p].SavingTip? && CanInsert(sys.tips, row) {
      assert AdvanceStep(sys, p, cfg).tips[|sys.tips|].transactionHash == Some(e.transactionHash);
    }
  }

  lemma NextCarries(sys: System, a: Action, p: nat, e: Event, cfg: Config)
    requires Carried(sys, p, e) && a != Crash(p)
    requires Topic(e) == "tip" && TipOfEvent(e.transactionHash, e.data, cfg).Good?
    requires !HasWithdrawalHash(sys.tips, e.transactionHash)
    ensures Carried(Next(sys, a, cfg), p, e)
  {
    if a.Advance? && a.pid in sys.handlers {
      if HasHash(sys.tips, e.transactionHash) {
        AdvanceKeepsHash(sys, a.pid, e.transactionHash, cfg);
      } else if a.pid == p {
        AdvanceCarries(sys, p, e, cfg);
      }
    }
  }

  /** No arriving withdrawal event carries the hash. */
  predicate TipsOnly(actions: seq<Action>, hash: string) {
    hash !in ArrivingHashes(actions, "withdrawal")
  }

  lemma TipsOnlyStays(actions: seq<Action>, hash: string, cfg: Config)
    requires TipsOnly(actions, hash)
    ensures !HasWithdrawalHash(Reach(actions, cfg).tips, hash)
  {
    var tips, withdrawals := ArrivingHashes(actions, "tip"), ArrivingHashes(actions, "withdrawal");
    ReachFrom(actions, tips, withdrawals, cfg);
    var rows := Reach(actions, cfg).tips;
    forall i | 0 <= i < |rows|
      ensures rows[i].withdrawalHash != Some(hash)
    {
      assert RowFrom(rows[i], tips, withdrawals);
    }
  }

  /** `before` is followed by the arrival of a valid tip event at a new handler, which does not
      crash in the rest of the run. */
  predicate StartsTip(before: seq<Action>, p: nat, e: Event, rest: seq<Action>, cfg: Config) {
    && p !in Reach(before, cfg).handlers && Crash(p) !in rest
    && Topic(e) == "tip" && TipOfEvent(e.transactionHash, e.data, cfg).Good?
  }

  lemma ArrivingPart(part: seq<Action>, rest: seq<Action>, hash: string)
    requires TipsOnly(part + rest, hash)
    ensures TipsOnly(part, hash)
  {
    ArrivingAppend(part, rest);
  }

  lemma {:induction false} TipIsCarried(before: seq<Action>, p: nat, e: Event, rest: seq<Action>, cfg: Config)
    requires StartsTip(before, p, e, rest, cfg) && TipsOnly(before + [Arrive(p, e)] + rest, e.transactionHash)
    ensures Carried(Reach(before + [Arrive(p, e)] + rest, cfg), p, e)
    decreases rest
  {
    var start := before + [Arrive(p, e)];
    if rest == [] {
      assert start + rest == start && start[..|start| - 1] == before;
    } else {
      var last := |rest| - 1;
      assert start + rest == (start + rest[..last]) + [rest[last]];
      assert (start + rest)[..|start + rest| - 1] == start + rest[..last];
      ArrivingPart(start + rest[..last], [rest[last]], e.transactionHash);
      TipIsCarried(before, p, e, rest[..last], cfg);
      TipsOnlyStays(start + rest[..last], e.transactionHash, cfg);
      NextCarries(Reach(start + rest[..last], cfg), rest[last], p, e, cfg);
    }
  }

  /** Row i and no other carries the hash. */
  predicate OnlyRow(tips: seq<Tip>, i: nat, hash: string) {
    i < |tips| && forall j | 0 <= j < |tips| :: tips[j].transactionHash == Some(hash) <==> j == i
  }

  /** No valid event is lost: in every interleaving and whatever else crashes, once a handler that
      started with a valid tip event has got past saving, exactly one row carries the event's hash,
      provided no withdrawal event arrives with that hash. */
  lemma ValidTipIsStored(before: seq<Action>, p: nat, e: Event, rest: seq<Action>, cfg: Config) returns (i: nat)
    requires StartsTip(before, p, e, rest, cfg) && TipsOnly(before + [Arrive(p, e)] + rest, e.transactionHash)
    requires var sys := Reach(before + [Arrive(p, e)] + rest, cfg);
             p in sys.handlers && (sys.handlers[p].Notifying? || sys.handlers[p].Finished?)
    ensures OnlyRow(Reach(before + [Arrive(p, e)] + rest, cfg).tips, i, e.transactionHash)
  {
    var sys := Reach(before + [Arrive(p, e)] + rest, cfg);
    TipIsCarried(before, p, e, rest, cfg);
    ReachableInv(before + [Arrive(p, e)] + rest, cfg);
    i :| 0 <= i < |sys.tips| && sys.tips[i].transactionHash == Some(e.transactionHash);
  }

  function ArrivedEvents(actions: seq<Action>): set<Event> {
    set i | 0 <= i < |actions| && actions[i].Arrive? :: actions[i].event
  }

  /** But for its withdrawal columns, the row is what the tip event says. */
  predicate Says(t: Tip, e: Event, cfg: Config) {
    && Topic(e) == "tip" && t.transactionHash == Some(e.transactionHash)
    && TipOfEvent(e.transactionHash, e.data, cfg) == Good(t.(withdrawalStatus := NoWithdrawal, withdrawalHash := None))
  }

  predicate HandlesArrived(phase: Phase, events: set<Event>) {
    match phase
    case Checking(e) => e in events
    case SavingTip(e) => e in events && Topic(e) == "tip"
    case _ => true
  }

  ghost predicate SaidBy(t: Tip, events: set<Event>, cfg: Config) {
    exists e :: e in events && Says(t, e, cfg)
  }

  ghost predicate Reported(sys: System, events: set<Event>, cfg: Config) {
    && (forall i | 0 <= i < |sys.tips| :: SaidBy(sys.tips[i], events, cfg))
    && forall p | p in sys.handlers :: HandlesArrived(sys.handlers[p], events)
  }

  lemma AdvanceRow(sys: System, pid: nat, i: nat, cfg: Config)
    requires pid in sys.handlers && i < |AdvanceStep(sys, pid, cfg).tips|
    ensures var t := AdvanceStep(sys, pid, cfg).tips[i];
            if i < |sys.tips| then
              t == sys.tips[i].(withdrawalStatus := t.withdrawalStatus, withdrawalHash := t.withdrawalHash)
            else
              sys.handlers[pid].SavingTip?
              && Good(t) == TipOfEvent(sys.handlers[pid].event.transactionHash, sys.handlers[pid].event.data, cfg)
  {
  }

  lemma AdvanceKeepsReported(sys: System, pid: nat, events: set<Event>, cfg: Config)
    requires Reported(sys, events, cfg) && pid in sys.handlers
    ensures Reported(AdvanceStep(sys, pid, cfg), events, cfg)
  {
    var d := AdvanceStep(sys, pid, cfg);
    forall i | 0 <= i < |d.tips|
      ensures SaidBy(d.tips[i], events, cfg)
    {
      AdvanceRow(sys, pid, i, cfg);
      if i < |sys.tips| {
        assert SaidBy(sys.tips[i], events, cfg);
        var e :| e in events && Says(sys.tips[i], e, cfg);
        assert Says(d.tips[i], e, cfg);
      } else {
        assert Says(d.tips[i], sys.handlers[pid].event, cfg);
      }
    }
  }

  lemma {:induction false} ReachReported(actions: seq<Action>, events: set<Event>, cfg: Config)
    requires ArrivedEvents(actions) <= events
    ensures Reported(Reach(actions, cfg), events, cfg)
  {
    if actions != [] {
      var before, a := actions[..|actions| - 1], actions[|actions| - 1];
      assert forall i | 0 <= i < |before| :: before[i] == actions[i];
      ReachReported(before, events, cfg);
      if a.Advance? && a.pid in Reach(before, cfg).handlers {
        AdvanceKeepsReported(Reach(before, cfg), a.pid, events, cfg);
      } else if a.Arrive? {
        assert a.event in ArrivedEvents(actions);
      }
    }
  }

  /** What every stored row says: in every interleaving, with any crashes, it is the row of a tip
      event that arrived, but for what withdrawals wrote. */
  lemma RowsComeFromEvents(actions: seq<Action>, i: nat, cfg: Config) returns (e: Event)
    requires i < |Reach(actions, cfg).tips|
    ensures e in ArrivedEvents(actions) && Says(Reach(actions, cfg).tips[i], e, cfg)
  {
    ReachReported(actions, ArrivedEvents(actions), cfg);
    assert SaidBy(Reach(actions, cfg).tips[i], ArrivedEvents(actions), cfg);
    e :| e in ArrivedEvents(actions) && Says(Reach(actions, cfg).tips[i], e, cfg);
  }

  predicate Settled(sys: System) {
    forall p | p in sys.handlers :: sys.handlers[p] == Finished
  }

  /** Exactly once, from delivery to notification: when every handler has finished and no crash lost
      a notification, a valid tip event that was delivered to a handler that did not crash has
      exactly one row under its hash, with exactly one notification, and the row is what a tip event
      with that hash says; provided no withdrawal event arrives with the hash. */
  lemma ValidTipExactlyOnce(before: seq<Action>, p: nat, e: Event, rest: seq<Action>, cfg: Config)
    returns (i: nat, said: Event)
    requires StartsTip(before, p, e, rest, cfg) && TipsOnly(before + [Arrive(p, e)] + rest, e.transactionHash)
    requires var actions := before + [Arrive(p, e)] + rest;
             Settled(Reach(actions, cfg)) && NoneLost(actions, cfg)
    ensures var actions := before + [Arrive(p, e)] + rest;
            var sys := Reach(actions, cfg);
            && OnlyRow(sys.tips, i, e.transactionHash) && NoteCount(sys.notes, i) == 1
            && said in ArrivedEvents(actions) && said.transactionHash == e.transactionHash
            && Says(sys.tips[i], said, cfg)
  {
    var actions := before + [Arrive(p, e)] + rest;
    HandlerStays(before, p, e, rest, cfg);
    i := ValidTipIsStored(before, p, e, rest, cfg);
    ExactlyOnceWhenSettled(actions, cfg);
    said := RowsComeFromEvents(actions, i, cfg);
  }

  lemma {:induction false} HandlerStays(before: seq<Action>, p: nat, e: Event, rest: seq<Action>, cfg: Config)
    ensures p in Reach(before + [Arrive(p, e)] + rest, cfg).handlers
    decreases rest
  {
    var start := before + [Arrive(p, e)];
    if rest == [] {
      assert start + rest == start && start[..|start| - 1] == before;
    } else {
      assert (start + rest)[..|start + rest| - 1] == start + rest[..|rest| - 1];
      HandlerStays(before, p, e, rest[..|rest| - 1], cfg);
    }
  }

  // ---------- What interleaving breaks ----------

  lemma SaveBoth(sys: System, p: nat, q: nat, e: Event, id: nat, status: WithdrawalStatus, cfg: Config)
    requires p in sys.handlers && q in sys.handlers && p != q
    requires sys.handlers[p] == SavingTip(e) && sys.handlers[q] == SavingWithdrawal(id, status, e.transactionHash)
    requires !IsDuplicate(sys.tips, e.transactionHash) && id < |sys.tips| && UniqueTips(sys.tips)
    requires TipOfEvent(e.transactionHash, e.data, cfg).Good?
    ensures var end := Next(Next(sys, Advance(p), cfg), Advance(q), cfg);
            HasHash(end.tips, e.transactionHash) && HasWithdrawalHash(end.tips, e.transactionHash)
  {
    var row := TipOfEvent(e.transactionHash, e.data, cfg).value;
    var mid := Next(sys, Advance(p), cfg);
    assert mid.tips == sys.tips + [row];
    var t := WithdrawnTip(mid.tips[id], status, e.transactionHash);
    forall j | 0 <= j < |mid.tips| && j != id
      ensures mid.tips[j].withdrawalHash != t.withdrawalHash
      ensures t.transactionHash.Some? ==> mid.tips[j].transactionHash != t.transactionHash
    {
      if j < |sys.tips| {
        assert mid.tips[j] == sys.tips[j];
      }
    }
    var end := Next(mid, Advance(q), cfg);
    assert end.tips == mid.tips[id := t];
    assert end.tips[|sys.tips|].transactionHash == Some(e.transactionHash);
    assert end.tips[id].withdrawalHash == Some(e.transactionHash);
  }

  /** The run in which handler p stores a tip and handler q a withdrawal under one hash: both
      check before either saves. */
  function SharedHashRun(p: nat, q: nat, tip: Event, withdrawal: Event): seq<Action> {
    [Arrive(p, tip), Arrive(q, withdrawal), Advance(p), Advance(q), Advance(q), Advance(p), Advance(q)]
  }

  function Then(sys: System, actions: seq<Action>, cfg: Config): System
    decreases actions
  {
    if actions == [] then sys else Then(Next(sys, actions[0], cfg), actions[1..], cfg)
  }

  /** The system after the first five actions of that run. */
  function BothLoaded(sys: System, p: nat, q: nat, tip: Event, withdrawal: Event): System {
    var id := LinkedTip(sys.tips, withdrawal.data);
    var status := NormalizeWithdrawalStatus(withdrawal.data.status);
    if id.None? || status.Bad? then sys
    else
      sys.(handlers := sys.handlers[p := SavingTip(tip)]
                                   [q := SavingWithdrawal(id.value, status.value, withdrawal.transactionHash)])
  }

  /** A tip event and a withdrawal event that would each be stored if they were handled next. */
  predicate Storable(sys: System, p: nat, q: nat, tip: Event, withdrawal: Event, cfg: Config) {
    && p !in sys.handlers && q !in sys.handlers && p != q
    && !IsDuplicate(sys.tips, tip.transactionHash) && !IsDuplicate(sys.tips, withdrawal.transactionHash)
    && Topic(tip) == "tip" && TipOfEvent(tip.transactionHash, tip.data, cfg).Good?
    && Topic(withdrawal) == "withdrawal" && LinkedTip(sys.tips, withdrawal.data).Some?
    && NormalizeWithdrawalStatus(withdrawal.data.status).Good?
  }

  lemma BothArrive(sys: System, p: nat, q: nat, tip: Event, withdrawal: Event, cfg: Config)
    requires Storable(sys, p, q, tip, withdrawal, cfg)
    ensures Then(sys, [Arrive(p, tip), Arrive(q, withdrawal), Advance(p)], cfg)
         == sys.(handlers := sys.handlers[p := SavingTip(tip)][q := Checking(withdrawal)])
  {
    ThenThree(sys, Arrive(p, tip), Arrive(q, withdrawal), Advance(p), cfg);
    TipIsChecked(sys, p, q, tip, withdrawal, cfg);
  }

  lemma TipIsChecked(sys: System, p: nat, q: nat, tip: Event, withdrawal: Event, cfg: Config)
    requires Storable(sys, p, q, tip, withdrawal, cfg)
    ensures var arrived := Next(Next(sys, Arrive(p, tip), cfg), Arrive(q, withdrawal), cfg);
            Next(arrived, Advance(p), cfg)
            == sys.(handlers := sys.handlers[p := SavingTip(tip)][q := Checking(withdrawal)])
  {
    var arrived := Move(Move(sys, p, Checking(tip)), q, Checking(withdrawal));
    assert Next(arrived, Advance(p), cfg) == Move(arrived, p, SavingTip(tip));
  }

  lemma ThenThree(sys: System, a: Action, b: Action, c: Action, cfg: Config)
    ensures Then(sys, [a, b, c], cfg) == Next(Next(Next(sys, a, cfg), b, cfg), c, cfg)
  {
    assert [a, b, c][1..] == [b, c] && [b, c][1..] == [c] && [c][1..] == [];
    assert Then(Next(Next(sys, a, cfg), b, cfg), [c], cfg) == Next(Next(Next(sys, a, cfg), b, cfg), c, cfg);
  }

  lemma WithdrawalLoads(sys: System, p: nat, q: nat, tip: Event, withdrawal: Event, cfg: Config)
    requires Storable(sys, p, q, tip, withdrawal, cfg)
    ensures var mid := sys.(handlers := sys.handlers[p := SavingTip(tip)][q := Checking(withdrawal)]);
            Next(Next(mid, Advance(q), cfg), Advance(q), cfg) == BothLoaded(sys, p, q, tip, withdrawal)
  {
    var mid := sys.(handlers := sys.handlers[p := SavingTip(tip)][q := Checking(withdrawal)]);
    assert Next(mid, Advance(q), cfg) == Move(mid, q, LoadingLinked(withdrawal));
  }

  lemma {:induction false} ThenAppend(sys: System, actions: seq<Action>, more: seq<Action>, cfg: Config)
    ensures Then(sys, actions + more, cfg) == Then(Then(sys, actions, cfg), more, cfg)
    decreases actions
  {
    if actions == [] {
      assert actions + more == more;
    } else {
      assert (actions + more)[1..] == actions[1..] + more;
      ThenAppend(Next(sys, actions[0], cfg), actions[1..], more, cfg);
    }
  }

  lemma ThenTwo(sys: System, a: Action, b: Action, cfg: Config)
    ensures Then(sys, [a, b], cfg) == Next(Next(sys, a, cfg), b, cfg)
  {
    assert [a, b][1..] == [b] && [b][1..] == [];
    assert Then(Next(sys, a, cfg), [b], cfg) == Next(Next(sys, a, cfg), b, cfg);
  }

  lemma SharedHashRunEnds(sys: System, p: nat, q: nat, tip: Event, withdrawal: Event, cfg: Config)
    requires Storable(sys, p, q, tip, withdrawal, cfg)
    ensures Then(sys, SharedHashRun(p, q, tip, withdrawal), cfg)
         == Next(Next(BothLoaded(sys, p, q, tip, withdrawal), Advance(p), cfg), Advance(q), cfg)
  {
    var first := [Arrive(p, tip), Arrive(q, withdrawal), Advance(p)];
    var second, last := [Advance(q), Advance(q)], [Advance(p), Advance(q)];
    assert SharedHashRun(p, q, tip, withdrawal) == first + (second + last);
    ThenAppend(sys, first, second + last, cfg);
    BothArrive(sys, p, q, tip, withdrawal, cfg);
    ThenAppend(Then(sys, first, cfg), second, last, cfg);
    ThenTwo(Then(sys, first, cfg), Advance(q), Advance(q), cfg);
    WithdrawalLoads(sys, p, q, tip, withdrawal, cfg);
    ThenTwo(BothLoaded(sys, p, q, tip, withdrawal), Advance(p), Advance(q), cfg);
  }

  lemma {:induction false} ReachThen(before: seq<Action>, run: seq<Action>, cfg: Config)
    ensures Reach(before + run, cfg) == Then(Reach(before, cfg), run, cfg)
    decreases run
  {
    if run == [] {
      assert before + run == before;
    } else {
      assert (before + [run[0]])[..|before|] == before;
      assert before + run == (before + [run[0]]) + run[1..];
      ReachThen(before + [run[0]], run[1..], cfg);
    }
  }

  /** The two unique columns do not exclude each other: after any run, a storable tip event and a
      storable withdrawal event with one hash can interleave so that the hash ends up in both
      columns, which no sequence of whole webhooks allows. */
  lemma InterleavingSharesHash(before: seq<Action>, p: nat, q: nat, tip: Event, withdrawal: Event, cfg: Config)
    requires Storable(Reach(before, cfg), p, q, tip, withdrawal, cfg)
    requires withdrawal.transactionHash == tip.transactionHash
    ensures var end := Reach(before + SharedHashRun(p, q, tip, withdrawal), cfg);
            HasHash(end.tips, tip.transactionHash) && HasWithdrawalHash(end.tips, tip.transactionHash)
  {
    var sys := Reach(before, cfg);
    var id := LinkedTip(sys.tips, withdrawal.data).value;
    var status := NormalizeWithdrawalStatus(withdrawal.data.status).value;
    ReachableInv(before, cfg);
    ReachThen(before, SharedHashRun(p, q, tip, withdrawal), cfg);
    SharedHashRunEnds(sys, p, q, tip, withdrawal, cfg);
    SaveBoth(BothLoaded(sys, p, q, tip, withdrawal), p, q, tip, id, status, cfg);
  }

  /** A continuation in which nothing new arrives but these two events, each as often as it likes. */
  predicate Delivers(run: seq<Action>, tip: Event, withdrawal: Event) {
    forall i | 0 <= i < |run| && run[i].Arrive? :: run[i].event == tip || run[i].event == withdrawal
  }

  /** A hash stands in both columns. */
  predicate Shared(tips: seq<Tip>) {
    exists i, j | 0 <= i < |tips| && 0 <= j < |tips| ::
      tips[i].transactionHash.Some? && tips[i].transactionHash == tips[j].withdrawalHash
  }

  /** The columns of one system can come to share a hash, by some interleaving of the deliveries of
      two storable events, if and only if the two events carry the same hash. */
  lemma SharesHashExactly(before: seq<Action>, p: nat, q: nat, tip: Event, withdrawal: Event, cfg: Config)
    requires Storable(Reach(before, cfg), p, q, tip, withdrawal, cfg)
    requires NoClash(before + [Arrive(p, tip)]) && NoClash(before + [Arrive(q, withdrawal)])
    ensures (exists run :: Delivers(run, tip, withdrawal) && Shared(Reach(before + run, cfg).tips))
            <==> tip.transactionHash == withdrawal.transactionHash
  {
    if tip.transactionHash == withdrawal.transactionHash {
      var run := SharedHashRun(p, q, tip, withdrawal);
      InterleavingSharesHash(before, p, q, tip, withdrawal, cfg);
      assert Delivers(run, tip, withdrawal) && Shared(Reach(before + run, cfg).tips);
    } else {
      forall run | Delivers(run, tip, withdrawal)
        ensures !Shared(Reach(before + run, cfg).tips)
      {
        NoClashContinues(before, p, q, run, tip, withdrawal);
        ColumnsStayApart(before + run, cfg);
      }
    }
  }

  lemma NoClashContinues(before: seq<Action>, p: nat, q: nat, run: seq<Action>, tip: Event, withdrawal: Event)
    requires NoClash(before + [Arrive(p, tip)]) && NoClash(before + [Arrive(q, withdrawal)])
    requires Topic(tip) == "tip" && Topic(withdrawal) == "withdrawal"
    requires Delivers(run, tip, withdrawal) && tip.transactionHash != withdrawal.transactionHash
    ensures NoClash(before + run)
  {
    assert "tip" != "withdrawal" by { assert |"tip"| != |"withdrawal"|; }
    ArrivingAppend(before, [Arrive(p, tip)]);
    ArrivingAppend(before, [Arrive(q, withdrawal)]);
    ArrivingAppend(before, run);
    assert [Arrive(p, tip)][0].event == tip && [Arrive(q, withdrawal)][0].event == withdrawal;
    assert tip.transactionHash in ArrivingHashes([Arrive(p, tip)], "tip");
    assert withdrawal.transactionHash in ArrivingHashes([Arrive(q, withdrawal)], "withdrawal");
    assert ArrivingHashes(run, "tip") <= {tip.transactionHash};
    assert ArrivingHashes(run, "withdrawal") <= {withdrawal.transactionHash};
  }

  lemma ArrivingAppend(actions: seq<Action>, more: seq<Action>)
    ensures forall topic :: ArrivingHashes(actions + more, topic)
                         == ArrivingHashes(actions, topic) + ArrivingHashes(more, topic)
  {
    var all := actions + more;
    assert forall i | 0 <= i < |actions| :: all[i] == actions[i];
    assert forall i | 0 <= i < |more| :: all[|actions| + i] == more[i];
    forall topic
      ensures ArrivingHashes(all, topic) == ArrivingHashes(actions, topic) + ArrivingHashes(more, topic)
    {
      ArrivingIn(actions, all, topic, 0);
      ArrivingIn(more, all, topic, |actions|);
    }
  }

  lemma ArrivingIn(part: seq<Action>, all: seq<Action>, topic: string, at: nat)
    requires at + |part| <= |all| && forall i | 0 <= i < |part| :: all[at + i] == part[i]
    ensures ArrivingHashes(part, topic) <= ArrivingHashes(all, topic)
  {
    forall i | 0 <= i < |part| && part[i].Arrive? && Topic(part[i].event) == topic
      ensures part[i].event.transactionHash in ArrivingHashes(all, topic)
    {
      assert all[at + i] == part[i];
    }
  }

  // ---------- A withdrawal that comes first ----------

  /** Handler q applies the withdrawal on its own. */
  function WithdrawalRun(q: nat, withdrawal: Event): seq<Action> {
    [Arrive(q, withdrawal), Advance(q), Advance(q), Advance(q)]
  }

  lemma WithdrawalRunEnds(sys: System, q: nat, withdrawal: Event, cfg: Config)
    requires q !in sys.handlers && !IsDuplicate(sys.tips, withdrawal.transactionHash) && ColumnsUnique(sys.tips)
    requires Topic(withdrawal) == "withdrawal" && LinkedTip(sys.tips, withdrawal.data).Some?
    requires NormalizeWithdrawalStatus(withdrawal.data.status).Good?
    ensures var i := LinkedTip(sys.tips, withdrawal.data).value;
            var status := NormalizeWithdrawalStatus(withdrawal.data.status).value;
            Then(sys, WithdrawalRun(q, withdrawal), cfg)
            == System(sys.tips[i := WithdrawnTip(sys.tips[i], status, withdrawal.transactionHash)], sys.notes,
                      sys.handlers[q := Finished])
  {
    var i := LinkedTip(sys.tips, withdrawal.data).value;
    var status := NormalizeWithdrawalStatus(withdrawal.data.status).value;
    var first := [Arrive(q, withdrawal), Advance(q)];
    assert WithdrawalRun(q, withdrawal) == first + [Advance(q), Advance(q)];
    ThenAppend(sys, first, [Advance(q), Advance(q)], cfg);
    ThenTwo(sys, Arrive(q, withdrawal), Advance(q), cfg);
    var mid := Move(Move(sys, q, Checking(withdrawal)), q, LoadingLinked(withdrawal));
    assert "tip" != "withdrawal" by { assert |"tip"| != |"withdrawal"|; }
    assert Then(sys, first, cfg) == mid;
    ThenTwo(mid, Advance(q), Advance(q), cfg);
    NewHashUpdates(sys.tips, i, status, withdrawal.transactionHash);
  }

  /** Handler p, which then starts with the tip event, gets through without crashing. */
  predicate GoesThrough(before: seq<Action>, p: nat, tip: Event, rest: seq<Action>, cfg: Config) {
    var sys := Reach(before + [Arrive(p, tip)] + rest, cfg);
    StartsTip(before, p, tip, rest, cfg) && p in sys.handlers && sys.handlers[p].Finished?
  }

  /** Delivered next, handler q alone stores the withdrawal; the tip event that then arrives at
      handler p under the same hash is a duplicate, and its tip is never stored. */
  lemma WithdrawalFirstLosesTip(before: seq<Action>, p: nat, q: nat, tip: Event, withdrawal: Event, cfg: Config)
    requires Storable(Reach(before, cfg), p, q, tip, withdrawal, cfg)
    requires withdrawal.transactionHash == tip.transactionHash
    ensures var mid := before + WithdrawalRun(q, withdrawal);
            var end := Reach(mid + [Arrive(p, tip)] + [Advance(p)], cfg);
            && GoesThrough(mid, p, tip, [Advance(p)], cfg)
            && HasWithdrawalHash(end.tips, tip.transactionHash) && !HasHash(end.tips, tip.transactionHash)
  {
    var sys := Reach(before, cfg);
    var i := LinkedTip(sys.tips, withdrawal.data).value;
    var status := NormalizeWithdrawalStatus(withdrawal.data.status).value;
    ReachColumns(before, cfg);
    ReachThen(before, WithdrawalRun(q, withdrawal), cfg);
    WithdrawalRunEnds(sys, q, withdrawal, cfg);
    var mid := Reach(before + WithdrawalRun(q, withdrawal), cfg);
    assert mid.tips[i].withdrawalHash == Some(tip.transactionHash);
    OneAction(before + WithdrawalRun(q, withdrawal), Arrive(p, tip), cfg);
    OneAction(before + WithdrawalRun(q, withdrawal) + [Arrive(p, tip)], Advance(p), cfg);
  }

  lemma OneAction(actions: seq<Action>, a: Action, cfg: Config)
    ensures Reach(actions + [a], cfg) == Next(Reach(actions, cfg), a, cfg)
  {
    assert (actions + [a])[..|actions|] == actions;
  }

  lemma ReachColumns(actions: seq<Action>, cfg: Config)
    ensures ColumnsUnique(Reach(actions, cfg).tips)
  {
    ReachFrom(actions, ArrivingHashes(actions, "tip"), ArrivingHashes(actions, "withdrawal"), cfg);
  }

  predicate KeepsTip(before: seq<Action>, first: seq<Action>, p: nat, rest: seq<Action>, tip: Event,
                     withdrawal: Event, cfg: Config) {
    Delivers(first, tip, withdrawal) && Delivers(rest, tip, withdrawal)
    && GoesThrough(before + first, p, tip, rest, cfg)
    ==> HasHash(Reach(before + first + [Arrive(p, tip)] + rest, cfg).tips, tip.transactionHash)
  }

  /** However the deliveries of the two events are interleaved after `before`, a handler of the tip
      event that gets through without crashing leaves the tip stored. */
  ghost predicate AlwaysStored(before: seq<Action>, tip: Event, withdrawal: Event, cfg: Config) {
    forall first, p, rest :: KeepsTip(before, first, p, rest, tip, withdrawal, cfg)
  }

  /** A valid tip event is safe from a withdrawal event exactly when the two carry different hashes:
      only then is it stored in every interleaving of their deliveries. */
  lemma TipSurvivesExactly(before: seq<Action>, p: nat, q: nat, tip: Event, withdrawal: Event, cfg: Config)
    requires Storable(Reach(before, cfg), p, q, tip, withdrawal, cfg) && TipsOnly(before, tip.transactionHash)
    ensures AlwaysStored(before, tip, withdrawal, cfg) <==> tip.transactionHash != withdrawal.transactionHash
  {
    if tip.transactionHash == withdrawal.transactionHash {
      WithdrawalFirstDoesNotKeep(before, p, q, tip, withdrawal, cfg);
    } else {
      forall first, p, rest
        ensures KeepsTip(before, first, p, rest, tip, withdrawal, cfg)
      {
        OtherHashKeeps(before, first, p, rest, tip, withdrawal, cfg);
      }
    }
  }

  lemma DeliversOnlyThese(p: nat, q: nat, tip: Event, withdrawal: Event)
    ensures Delivers(WithdrawalRun(q, withdrawal), tip, withdrawal) && Delivers([Advance(p)], tip, withdrawal)
  {
  }

  lemma WithdrawalFirstDoesNotKeep(
      before: seq<Action>, p: nat, q: nat, tip: Event, withdrawal: Event, cfg: Config)
    requires Storable(Reach(before, cfg), p, q, tip, withdrawal, cfg)
    requires withdrawal.transactionHash == tip.transactionHash
    ensures !KeepsTip(before, WithdrawalRun(q, withdrawal), p, [Advance(p)], tip, withdrawal, cfg)
  {
    WithdrawalFirstLosesTip(before, p, q, tip, withdrawal, cfg);
    DeliversOnlyThese(p, q, tip, withdrawal);
  }

  lemma OtherHashKeeps(before: seq<Action>, first: seq<Action>, p: nat, rest: seq<Action>, tip: Event,
                       withdrawal: Event, cfg: Config)
    requires TipsOnly(before, tip.transactionHash) && tip.transactionHash != withdrawal.transactionHash
    ensures KeepsTip(before, first, p, rest, tip, withdrawal, cfg)
  {
    if Delivers(first, tip, withdrawal) && Delivers(rest, tip, withdrawal)
       && GoesThrough(before + first, p, tip, rest, cfg) {
      TipsOnlyContinues(before, first, p, rest, tip, withdrawal);
      var i := ValidTipIsStored(before + first, p, tip, rest, cfg);
      assert Reach(before + first + [Arrive(p, tip)] + rest, cfg).tips[i].transactionHash == Some(tip.transactionHash);
    }
  }

  lemma TipsOnlyContinues(
      before: seq<Action>, first: seq<Action>, p: nat, rest: seq<Action>, tip: Event, withdrawal: Event)
    requires TipsOnly(before, tip.transactionHash) && Topic(tip) == "tip"
    requires Delivers(first, tip, withdrawal) && Delivers(rest, tip, withdrawal)
    requires tip.transactionHash != withdrawal.transactionHash
    ensures TipsOnly(before + first + [Arrive(p, tip)] + rest, tip.transactionHash)
  {
    assert "tip" != "withdrawal" by { assert |"tip"| != |"withdrawal"|; }
    ArrivingAppend(before, first);
    ArrivingAppend(before + first, [Arrive(p, tip)]);
    ArrivingAppend(before + first + [Arrive(p, tip)], rest);
  }
}
