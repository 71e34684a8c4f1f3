/** Logs of webhook deliveries, handled one after another. */
module WebhookLog {
  import opened Options
  import opened TipTable
  import opened TipLedger
  import opened LedgerRuns

  // ---------- One hash, one place ----------

  /** No hash stands twice in the table, within a column or across the two. */
  ghost predicate CrossUnique(tips: seq<Tip>) {
    && (forall i, j | 0 <= i < |tips| && 0 <= j < |tips| && i != j && tips[i].transactionHash.Some? ::
          tips[i].transactionHash != tips[j].transactionHash)
    && (forall i, j | 0 <= i < |tips| && 0 <= j < |tips| && i != j && tips[i].withdrawalHash.Some? ::
          tips[i].withdrawalHash != tips[j].withdrawalHash)
    && (forall i, j | 0 <= i < |tips| && 0 <= j < |tips| && tips[i].transactionHash.Some? ::
          tips[i].transactionHash != tips[j].withdrawalHash)
  }

  function OccurrencesInRow(t: Tip, hash: string): nat {
    (if t.transactionHash == Some(hash) then 1 else 0) + if t.withdrawalHash == Some(hash) then 1 else 0
  }

  /** How often a hash stands in the two columns together. */
  function Occurrences(tips: seq<Tip>, hash: string): nat {
    if tips == [] then 0
    else Occurrences(tips[..|tips| - 1], hash) + OccurrencesInRow(tips[|tips| - 1], hash)
  }

  lemma {:induction false} AbsentHashOccursNever(tips: seq<Tip>, hash: string)
    requires !IsDuplicate(tips, hash)
    ensures Occurrences(tips, hash) == 0
  {
    if tips != [] {
      var n := |tips| - 1;
      assert tips[n].transactionHash != Some(hash) && tips[n].withdrawalHash != Some(hash);
      AbsentHashOccursNever(tips[..n], hash);
    }
  }

  lemma {:induction false} CrossUniqueOccursOnce(tips: seq<Tip>, hash: string)
    requires CrossUnique(tips)
    ensures Occurrences(tips, hash) <= 1
  {
    if tips != [] {
      var n := |tips| - 1;
      CrossUniqueOccursOnce(tips[..n], hash);
      if OccurrencesInRow(tips[n], hash) > 0 {
        AbsentHashOccursNever(tips[..n], hash);
      }
    }
  }

  lemma InsertKeepsCrossUnique(tips: seq<Tip>, t: Tip, hash: string)
    requires CrossUnique(tips) && !IsDuplicate(tips, hash)
    requires t.transactionHash == Some(hash) && t.withdrawalHash == None
    ensures CrossUnique(tips + [t])
  {
    assert forall i | 0 <= i < |tips| :: tips[i].transactionHash != Some(hash) && tips[i].withdrawalHash != Some(hash);
  }

  lemma WithdrawalKeepsCrossUnique(tips: seq<Tip>, i: nat, t: Tip, hash: string)
    requires CrossUnique(tips) && !IsDuplicate(tips, hash) && i < |tips|
    requires t.transactionHash == tips[i].transactionHash && t.withdrawalHash == Some(hash)
    ensures CrossUnique(tips[i := t])
  {
    assert forall i | 0 <= i < |tips| :: tips[i].transactionHash != Some(hash) && tips[i].withdrawalHash != Some(hash);
  }

  /** What a webhook does to the hash columns, as told by its answer. */
  predicate HashEffect(tips: seq<Tip>, after: seq<Tip>, hash: string, o: Outcome) {
    match o
    case Stored(t) =>
      !IsDuplicate(tips, hash) && after == tips + [t] && t.transactionHash == Some(hash) && t.withdrawalHash == None
    case Withdrawn(i) =>
      && !IsDuplicate(tips, hash) && i < |tips| == |after| && after == tips[i := after[i]]
      && after[i].transactionHash == tips[i].transactionHash && after[i].withdrawalHash == Some(hash)
    case _ => after == tips
  }

  lemma WebhookEffect(s: Ledger, authentic: bool, now: int, e: Event, cfg: Config)
    ensures var (d, o) := HandleWebhook(s, authentic, now, e, cfg);
            HashEffect(s.tips, d.tips, e.transactionHash, o)
  {
  }

  lemma WebhookKeepsCrossUnique(s: Ledger, authentic: bool, now: int, e: Event, cfg: Config)
    requires CrossUnique(s.tips)
    ensures CrossUnique(HandleWebhook(s, authentic, now, e, cfg).0.tips)
  {
    var (d, o) := HandleWebhook(s, authentic, now, e, cfg);
    WebhookEffect(s, authentic, now, e, cfg);
    EffectKeepsCrossUnique(s.tips, d.tips, e.transactionHash, o);
  }

  lemma EffectKeepsCrossUnique(tips: seq<Tip>, after: seq<Tip>, hash: string, o: Outcome)
    requires CrossUnique(tips) && HashEffect(tips, after, hash, o)
    ensures CrossUnique(after)
  {
    match o
    case Stored(t) => InsertKeepsCrossUnique(tips, t, hash);
    case Withdrawn(i) => WithdrawalKeepsCrossUnique(tips, i, after[i], hash);
    case _ =>
  }

  /** In every sequential run of webhooks a hash occurs at most once across both columns. */
  lemma {:induction false} WebhookRunCrossUnique(ops: seq<Op>, cfg: Config)
    requires forall i | 0 <= i < |ops| :: ops[i].WebhookOp?
    ensures CrossUnique(RunOps(ops, cfg).tips)
    ensures forall hash :: Occurrences(RunOps(ops, cfg).tips, hash) <= 1
  {
    if ops != [] {
      var op := ops[|ops| - 1];
      WebhookRunCrossUnique(ops[..|ops| - 1], cfg);
      WebhookKeepsCrossUnique(RunOps(ops[..|ops| - 1], cfg), op.authentic, op.now, op.event, cfg);
    }
    forall hash
      ensures Occurrences(RunOps(ops, cfg).tips, hash) <= 1
    {
      CrossUniqueOccursOnce(RunOps(ops, cfg).tips, hash);
    }
  }

  // ---------- Redelivery and reordering ----------

  datatype Delivery = Delivery(now: int, event: Event)

  /** A delivery of a tip event that is authentic, fresh and carries a hash. Its data may be
      anything. */
  predicate TipDelivery(d: Delivery) {
    Screen(true, d.now, d.event) == Good(()) && Topic(d.event) == "tip"
  }

  function Process(s: Ledger, log: seq<Delivery>, cfg: Config): Ledger {
    if log == [] then s
    else
      var last := log[|log| - 1];
      HandleWebhook(Process(s, log[..|log| - 1], cfg), true, last.now, last.event, cfg).0
  }

  /** Tip deliveries in which equal hashes carry equal data. */
  predicate TipLog(log: seq<Delivery>) {
    && (forall i | 0 <= i < |log| :: TipDelivery(log[i]))
    && forall i, j | 0 <= i < |log| && 0 <= j < |log| && log[i].event.transactionHash == log[j].event.transactionHash ::
         log[i].event.data == log[j].event.data
  }

  /** The log without redeliveries: of each hash the first delivery only. */
  function FirstOccurrences(log: seq<Delivery>): seq<Delivery> {
    if log == [] then []
    else
      var before, last := log[..|log| - 1], log[|log| - 1];
      var seen := exists i | 0 <= i < |before| :: before[i].event.transactionHash == last.event.transactionHash;
      FirstOccurrences(before) + if seen then [] else [last]
  }

  // ---------- A delivery reduced to its hash and its row ----------

  /** What matters of a delivery: its hash and the row it stands for, if it is valid. */
  datatype Item = Item(hash: string, row: Option<Tip>)

  function ItemOf(d: Delivery, cfg: Config): Item {
    var row := TipOfEvent(d.event.transactionHash, d.event.data, cfg);
    Item(d.event.transactionHash, if row.Good? then Some(row.value) else None)
  }

  function Items(log: seq<Delivery>, cfg: Config): seq<Item> {
    seq(|log|, i requires 0 <= i < |log| => ItemOf(log[i], cfg))
  }

  predicate Coherent(items: seq<Item>) {
    && (forall i | 0 <= i < |items| && items[i].row.Some? ::
          items[i].row.value.transactionHash == Some(items[i].hash) && items[i].row.value.withdrawalHash == None)
    && forall i, j | 0 <= i < |items| && 0 <= j < |items| && items[i].hash == items[j].hash :: items[i] == items[j]
  }

  function StoreOne(s: Ledger, it: Item): Ledger {
    if it.row.Some? && !IsDuplicate(s.tips, it.hash) then
      Ledger(s.tips + [it.row.value], s.notes + [NoteFor(|s.tips|, it.row.value)])
    else s
  }

  function Store(s: Ledger, items: seq<Item>): Ledger {
    if items == [] then s else StoreOne(Store(s, items[..|items| - 1]), items[|items| - 1])
  }

  lemma HandleIsStoreOne(s: Ledger, d: Delivery, cfg: Config)
    requires TipDelivery(d)
    ensures HandleWebhook(s, true, d.now, d.event, cfg).0 == StoreOne(s, ItemOf(d, cfg))
  {
  }

  lemma {:induction false} ProcessIsStore(s: Ledger, log: seq<Delivery>, cfg: Config)
    requires forall i | 0 <= i < |log| :: TipDelivery(log[i])
    ensures Process(s, log, cfg) == Store(s, Items(log, cfg))
  {
    if log != [] {
      var n := |log| - 1;
      ProcessIsStore(s, log[..n], cfg);
      HandleIsStoreOne(Process(s, log[..n], cfg), log[n], cfg);
      assert Items(log, cfg)[..n] == Items(log[..n], cfg);
    }
  }

  lemma ItemsCoherent(log: seq<Delivery>, cfg: Config)
    requires TipLog(log)
    ensures Coherent(Items(log, cfg))
  {
  }

  function FirstItems(items: seq<Item>): seq<Item> {
    if items == [] then []
    else
      var before, last := items[..|items| - 1], items[|items| - 1];
      FirstItems(before) + if exists i | 0 <= i < |before| :: before[i].hash == last.hash then [] else [last]
  }

  lemma {:induction false} FirstItemsOfLog(log: seq<Delivery>, cfg: Config)
    ensures Items(FirstOccurrences(log), cfg) == FirstItems(Items(log, cfg))
    ensures forall d | d in FirstOccurrences(log) :: d in log
  {
    if log != [] {
      var before, last := log[..|log| - 1], log[|log| - 1];
      FirstItemsOfLog(before, cfg);
      assert Items(log, cfg)[..|log| - 1] == Items(before, cfg);
      assert forall i | 0 <= i < |before| :: Items(before, cfg)[i].hash == before[i].event.transactionHash;
    }
  }

  // ---------- Storing items ----------

  /** The rows that storing items adds. */
  function Added(tips: seq<Tip>, items: seq<Item>): seq<Tip> {
    if items == [] then []
    else
      var rows, last := Added(tips, items[..|items| - 1]), items[|items| - 1];
      if last.row.Some? && !IsDuplicate(tips, last.hash) && !HasHash(rows, last.hash) then rows + [last.row.value]
      else rows
  }

  /** The notifications for rows stored from id `base` on. */
  function NotesFor(base: nat, rows: seq<Tip>): seq<Note> {
    seq(|rows|, k requires 0 <= k < |rows| => NoteFor(base + k, rows[k]))
  }

  lemma DuplicateInParts(tips: seq<Tip>, rows: seq<Tip>, hash: string)
    requires forall i | 0 <= i < |rows| :: rows[i].withdrawalHash == None
    ensures IsDuplicate(tips + rows, hash) <==> IsDuplicate(tips, hash) || HasHash(rows, hash)
  {
    assert forall i | 0 <= i < |tips| :: (tips + rows)[i] == tips[i];
    assert forall i | 0 <= i < |rows| :: (tips + rows)[|tips| + i] == rows[i];
  }

  lemma {:induction false} AddedHasNoWithdrawals(tips: seq<Tip>, items: seq<Item>)
    requires Coherent(items)
    ensures forall i | 0 <= i < |Added(tips, items)| :: Added(tips, items)[i].withdrawalHash == None
  {
    if items != [] {
      AddedHasNoWithdrawals(tips, items[..|items| - 1]);
    }
  }

  /** Storing appends exactly the added rows and one notification for each. */
  lemma {:induction false} StoreAppends(s: Ledger, items: seq<Item>)
    requires Coherent(items)
    ensures Store(s, items) == Ledger(s.tips + Added(s.tips, items), s.notes + NotesFor(|s.tips|, Added(s.tips, items)))
  {
    if items != [] {
      var before, last := items[..|items| - 1], items[|items| - 1];
      StoreAppends(s, before);
      var rows := Added(s.tips, before);
      AddedHasNoWithdrawals(s.tips, before);
      DuplicateInParts(s.tips, rows, last.hash);
      if Added(s.tips, items) != rows {
        var row := last.row.value;
        assert NotesFor(|s.tips|, rows + [row]) == NotesFor(|s.tips|, rows) + [NoteFor(|s.tips| + |rows|, row)];
      }
    }
  }

  /** After an item was stored once, it is invalid or its hash is taken. */
  lemma {:induction false} StoredIsSettled(tips: seq<Tip>, items: seq<Item>, i: nat)
    requires Coherent(items) && i < |items|
    ensures items[i].row.None? || IsDuplicate(tips, items[i].hash) || HasHash(Added(tips, items), items[i].hash)
  {
    var before := items[..|items| - 1];
    var rows := Added(tips, before);
    if i == |items| - 1 {
      if Added(tips, items) != rows {
        assert Added(tips, items)[|rows|].transactionHash == Some(items[i].hash);
      }
    } else {
      StoredIsSettled(tips, before, i);
      assert forall k | 0 <= k < |rows| :: Added(tips, items)[k] == rows[k];
    }
  }

  lemma {:induction false} RepeatedItemsHarmless(s: Ledger, items: seq<Item>)
    requires Coherent(items)
    ensures Store(s, items) == Store(s, FirstItems(items))
  {
    if items != [] {
      var before, last := items[..|items| - 1], items[|items| - 1];
      RepeatedItemsHarmless(s, before);
      if exists i | 0 <= i < |before| :: before[i].hash == last.hash {
        var i :| 0 <= i < |before| && before[i].hash == last.hash;
        assert items[i] == items[|items| - 1];
        StoredIsSettled(s.tips, before, i);
        AddedHasNoWithdrawals(s.tips, before);
        DuplicateInParts(s.tips, Added(s.tips, before), last.hash);
        StoreAppends(s, before);
        assert FirstItems(items) == FirstItems(before);
      } else {
        var kept := FirstItems(items);
        assert kept[..|kept| - 1] == FirstItems(before);
      }
    }
  }

  /** Redelivery is harmless: processing a log of tip events gives the same tips and the same
      notifications as processing only the first delivery of each hash. */
  lemma RedeliveryHarmless(s: Ledger, log: seq<Delivery>, cfg: Config)
    requires TipLog(log)
    ensures Process(s, log, cfg) == Process(s, FirstOccurrences(log), cfg)
  {
    ItemsCoherent(log, cfg);
    ProcessIsStore(s, log, cfg);
    RepeatedItemsHarmless(s, Items(log, cfg));
    FirstItemsOfLog(log, cfg);
    forall i | 0 <= i < |FirstOccurrences(log)|
      ensures TipDelivery(FirstOccurrences(log)[i])
    {
      assert FirstOccurrences(log)[i] in log;
    }
    ProcessIsStore(s, FirstOccurrences(log), cfg);
  }

  // ---------- Order plays no part ----------

  /** The rows of the valid items with a new hash. */
  function Wanted(tips: seq<Tip>, items: set<Item>): set<Tip> {
    set it | it in items && it.row.Some? && !IsDuplicate(tips, it.hash) :: it.row.value
  }

  function ItemSet(items: seq<Item>): set<Item> { set it | it in items }

  lemma WantedWithOneMore(tips: seq<Tip>, items: set<Item>, it: Item)
    ensures Wanted(tips, items + {it})
         == Wanted(tips, items) + if it.row.Some? && !IsDuplicate(tips, it.hash) then {it.row.value} else {}
  {
  }

  lemma {:induction false} AddedIsWanted(tips: seq<Tip>, items: seq<Item>)
    requires Coherent(items)
    ensures multiset(Added(tips, items)) == multiset(Wanted(tips, ItemSet(items)))
  {
    if items != [] {
      var before, last := items[..|items| - 1], items[|items| - 1];
      AddedIsWanted(tips, before);
      assert ItemSet(items) == ItemSet(before) + {last};
      WantedWithOneMore(tips, ItemSet(before), last);
      if last.row.Some? && !IsDuplicate(tips, last.hash) {
        NextRowIsWanted(tips, items);
      }
    }
  }

  lemma NextRowIsWanted(tips: seq<Tip>, items: seq<Item>)
    requires Coherent(items) && items != []
    requires items[|items| - 1].row.Some? && !IsDuplicate(tips, items[|items| - 1].hash)
    requires var before := items[..|items| - 1];
             multiset(Added(tips, before)) == multiset(Wanted(tips, ItemSet(before)))
    ensures multiset(Added(tips, items))
         == multiset(Wanted(tips, ItemSet(items[..|items| - 1])) + {items[|items| - 1].row.value})
  {
    var before, last := items[..|items| - 1], items[|items| - 1];
    var rows, wanted := Added(tips, before), Wanted(tips, ItemSet(before));
    if HasHash(rows, last.hash) {
      TakenHashIsSameRow(tips, items);
      assert wanted + {last.row.value} == wanted;
    } else {
      assert forall i | 0 <= i < |rows| :: rows[i].transactionHash != Some(last.hash);
      OneMore(rows, wanted, last.row.value);
    }
  }

  lemma OneMore<T>(rows: seq<T>, wanted: set<T>, row: T)
    requires multiset(rows) == multiset(wanted) && row !in rows
    ensures multiset(rows + [row]) == multiset(wanted + {row})
  {
    assert row !in multiset(rows);
    assert row !in wanted;
    assert multiset(wanted + {row}) == multiset(wanted) + multiset{row};
  }

  lemma TakenHashIsSameRow(tips: seq<Tip>, items: seq<Item>)
    requires Coherent(items) && items != [] && items[|items| - 1].row.Some?
    requires var before := items[..|items| - 1];
             && multiset(Added(tips, before)) == multiset(Wanted(tips, ItemSet(before)))
             && HasHash(Added(tips, before), items[|items| - 1].hash)
    ensures items[|items| - 1].row.value in Wanted(tips, ItemSet(items[..|items| - 1]))
  {
    var before, last := items[..|items| - 1], items[|items| - 1];
    var rows := Added(tips, before);
    var i :| 0 <= i < |rows| && rows[i].transactionHash == Some(last.hash);
    assert rows[i] in multiset(rows);
    var it :| it in before && it.row == Some(rows[i]);
    var j :| 0 <= j < |before| && before[j] == it;
    assert items[j] == it && items[j].hash == items[|items| - 1].hash;
  }

  /** What a notification says, without the id of its row. */
  datatype Message = Message(userId: string, senderWallet: string, amount: int, asset: Asset)

  function Messages(notes: seq<Note>): seq<Message> {
    seq(|notes|, i requires 0 <= i < |notes| =>
      Message(notes[i].userId, notes[i].senderWallet, notes[i].amount, notes[i].asset))
  }

  function RowMessages(rows: seq<Tip>): seq<Message> {
    seq(|rows|, i requires 0 <= i < |rows| =>
      Message(rows[i].creatorId, rows[i].senderWallet, rows[i].amount, rows[i].asset))
  }

  lemma {:induction false} SameRowsSameMessages(a: seq<Tip>, b: seq<Tip>)
    requires multiset(a) == multiset(b)
    ensures multiset(RowMessages(a)) == multiset(RowMessages(b))
    decreases |a|
  {
    if a == [] {
      assert |multiset(b)| == 0;
    } else {
      var n := |a| - 1;
      assert a[n] in multiset(b);
      var i :| 0 <= i < |b| && b[i] == a[n];
      var rest := b[..i] + b[i + 1..];
      RemoveOne(a, n);
      RemoveOne(b, i);
      assert a[..n] + a[n + 1..] == a[..n];
      assert multiset(a[..n]) == multiset(a) - multiset{a[n]};
      assert multiset(rest) == multiset(b) - multiset{b[i]};
      SameRowsSameMessages(a[..n], rest);
      MessagesRemoveOne(a, n);
      MessagesRemoveOne(b, i);
    }
  }

  lemma RemoveOne<T>(a: seq<T>, i: nat)
    requires i < |a|
    ensures multiset(a) == multiset(a[..i] + a[i + 1..]) + multiset{a[i]}
  {
    assert a == a[..i] + [a[i]] + a[i + 1..];
  }

  lemma MessagesRemoveOne(a: seq<Tip>, i: nat)
    requires i < |a|
    ensures multiset(RowMessages(a)) == multiset(RowMessages(a[..i] + a[i + 1..])) + multiset{RowMessages(a)[i]}
  {
    RemoveOne(RowMessages(a), i);
    assert RowMessages(a[..i] + a[i + 1..]) == RowMessages(a)[..i] + RowMessages(a)[i + 1..];
  }

  /** Order independence: two logs that mention the same events, in any order and with any number
      of redeliveries, store the same tips and send the same notifications up to row ids. */
  lemma OrderIndependence(s: Ledger, log: seq<Delivery>, other: seq<Delivery>, cfg: Config)
    requires TipLog(log) && TipLog(other) && Mentioned(log) == Mentioned(other)
    ensures multiset(Process(s, log, cfg).tips) == multiset(Process(s, other, cfg).tips)
    ensures multiset(Messages(Process(s, log, cfg).notes)) == multiset(Messages(Process(s, other, cfg).notes))
  {
    SameMentionsSameItems(log, other, cfg);
    SameMentionsSameItems(other, log, cfg);
    assert ItemSet(Items(log, cfg)) == ItemSet(Items(other, cfg));
    ProcessedRows(s, log, cfg);
    ProcessedRows(s, other, cfg);
    SameRowsSameMessages(Added(s.tips, Items(log, cfg)), Added(s.tips, Items(other, cfg)));
  }

  /** The hashes a log mentions, each with its data. */
  function Mentioned(log: seq<Delivery>): set<(string, EventData)> {
    set d | d in log :: (d.event.transactionHash, d.event.data)
  }

  lemma SameMentionsSameItems(log: seq<Delivery>, other: seq<Delivery>, cfg: Config)
    requires Mentioned(log) <= Mentioned(other)
    ensures ItemSet(Items(log, cfg)) <= ItemSet(Items(other, cfg))
  {
    forall i | 0 <= i < |log|
      ensures Items(log, cfg)[i] in Items(other, cfg)
    {
      assert log[i] in log && (log[i].event.transactionHash, log[i].event.data) in Mentioned(other);
      var d :| d in other && d.event.transactionHash == log[i].event.transactionHash
               && d.event.data == log[i].event.data;
      var j :| 0 <= j < |other| && other[j] == d;
      assert Items(other, cfg)[j] == Items(log, cfg)[i];
    }
  }

  lemma MessagesAppend(notes: seq<Note>, base: nat, rows: seq<Tip>)
    ensures Messages(notes + NotesFor(base, rows)) == Messages(notes) + RowMessages(rows)
  {
  }

  /** The rows and messages of a processed log. */
  lemma ProcessedRows(s: Ledger, log: seq<Delivery>, cfg: Config)
    requires TipLog(log)
    ensures var rows := Added(s.tips, Items(log, cfg));
            && multiset(rows) == multiset(Wanted(s.tips, ItemSet(Items(log, cfg))))
            && Process(s, log, cfg).tips == s.tips + rows
            && Messages(Process(s, log, cfg).notes) == Messages(s.notes) + RowMessages(rows)
  {
    ItemsCoherent(log, cfg);
    ProcessIsStore(s, log, cfg);
    StoreAppends(s, Items(log, cfg));
    AddedIsWanted(s.tips, Items(log, cfg));
    MessagesAppend(s.notes, |s.tips|, Added(s.tips, Items(log, cfg)));
  }

  /** In particular every permutation of a log gives the same tips and notifications. */
  lemma PermutationsAgree(s: Ledger, log: seq<Delivery>, other: seq<Delivery>, cfg: Config)
    requires TipLog(log) && multiset(log) == multiset(other)
    ensures multiset(Process(s, log, cfg).tips) == multiset(Process(s, other, cfg).tips)
    ensures multiset(Messages(Process(s, log, cfg).notes)) == multiset(Messages(Process(s, other, cfg).notes))
  {
    assert forall d :: d in log <==> d in multiset(log);
    assert forall d :: d in other <==> d in multiset(other);
    assert forall i | 0 <= i < |other| :: other[i] in log;
    OrderIndependence(s, log, other, cfg);
  }
}
