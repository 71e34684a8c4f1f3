/** The 60-second cache in front of the on-chain verification of a tip. */
module VerificationCache {
  import opened Options

  const TTL := 60000

  /** The result of a full verification; `detail` stands for what Horizon and the contract said. */
  datatype Verification = Verification(tipId: string, matches: bool, detail: string)

  /** What a full verification of a tip gives at a time; None when the tip does not exist. */
  type Oracle = (string, nat) -> Option<Verification>

  datatype Entry = Entry(payload: Verification, expiresAt: nat)
  type Table = map<string, Entry>

  datatype Notice = Notice(tipId: string, time: nat)

  /** The Redis store, the map inside the process, and the discrepancy notifications sent. */
  datatype Cache = Cache(redis: Table, local: Table, notices: seq<Notice>)

  // ---------- The specification of reading, completing and a whole call ----------

  predicate Fresh(table: Table, id: string, now: nat) {
    id in table && now < table[id].expiresAt
  }

  /** `readVerificationCache`: Redis drops expired keys itself, the map is swept on reading. */
  function Read(c: Cache, id: string, now: nat, redisOpen: bool): (Cache, Option<Verification>) {
    if redisOpen then (c, if Fresh(c.redis, id, now) then Some(c.redis[id].payload) else None)
    else if Fresh(c.local, id, now) then (c, Some(c.local[id].payload))
    else (c.(local := c.local - {id}), None)
  }

  function Write(c: Cache, id: string, v: Verification, now: nat, redisOpen: bool): Cache {
    if redisOpen then c.(redis := c.redis[id := Entry(v, now + TTL)])
    else c.(local := c.local[id := Entry(v, now + TTL)])
  }

  /** A mismatch is notified before the result is cached. */
  function Notify(c: Cache, id: string, v: Verification, now: nat): Cache {
    if v.matches then c else c.(notices := c.notices + [Notice(id, now)])
  }

  /** One call of `verifyTipOnChain`: it reads at `start` and, on a miss, has its result at
      `computed`, the notification of a mismatch at `noticed` and the cache entry at `written`. It
      awaits between all of them, and the Redis store may open or close meanwhile. */
  datatype Call = Call(
    id: string, start: nat, computed: nat, noticed: nat, written: nat, openAtRead: bool, openAtWrite: bool)

  predicate Timed(call: Call) { call.start <= call.computed <= call.noticed <= call.written }

  datatype Result = Cached(value: Verification) | Verified(value: Verification) | NotFound

  function VerifyTip(c: Cache, call: Call, full: Oracle): (Cache, Result) {
    var (d, hit) := Read(c, call.id, call.start, call.openAtRead);
    if hit.Some? then (d, Cached(hit.value))
    else
      match full(call.id, call.computed)
      case None => (d, NotFound)
      case Some(v) =>
        (Write(Notify(d, call.id, v, call.noticed), call.id, v, call.written, call.openAtWrite), Verified(v))
  }

  // ---------- The service object ----------

  class TipsService {
    const full: Oracle
    var redis: Table
    var localVerificationCache: Table
    var notices: seq<Notice>

    ghost function State(): Cache
      reads this
    {
      Cache(redis, localVerificationCache, notices)
    }

    constructor (full: Oracle)
      ensures this.full == full && State() == Cache(map[], map[], [])
    {
      this.full := full;
      redis, localVerificationCache, notices := map[], map[], [];
    }

    method ReadVerificationCache(id: string, now: nat, redisOpen: bool) returns (r: Option<Verification>)
      modifies this`localVerificationCache
      ensures (State(), r) == Read(old(State()), id, now, redisOpen)
    {
      if redisOpen {
        return if Fresh(redis, id, now) then Some(redis[id].payload) else None;
      }
      if id !in localVerificationCache {
        assert localVerificationCache - {id} == localVerificationCache;
        return None;
      }
      var entry := localVerificationCache[id];
      if entry.expiresAt <= now {
        localVerificationCache := localVerificationCache - {id};
        return None;
      }
      return Some(entry.payload);
    }

    method WriteVerificationCache(id: string, v: Verification, now: nat, redisOpen: bool)
      modifies this`redis, this`localVerificationCache
      ensures State() == Write(old(State()), id, v, now, redisOpen)
    {
      if redisOpen {
        redis := redis[id := Entry(v, now + 60 * 1000)];
        return;
      }
      localVerificationCache := localVerificationCache[id := Entry(v, now + TTL)];
    }

    method VerifyTipOnChain(call: Call) returns (r: Result)
      modifies this
      ensures (State(), r) == VerifyTip(old(State()), call, full)
    {
      var cached := ReadVerificationCache(call.id, call.start, call.openAtRead);
      if cached.Some? {
        return Cached(cached.value);
      }
      var verification := full(call.id, call.computed);
      if verification.None? {
        return NotFound;
      }
      if !verification.value.matches {
        notices := notices + [Notice(call.id, call.noticed)];
      }
      WriteVerificationCache(call.id, verification.value, call.written, call.openAtWrite);
      return Verified(verification.value);
    }
  }

  // ---------- Freshness, with any interleaving ----------

  function StoreInUse(c: Cache, redisOpen: bool): Table { if redisOpen then c.redis else c.local }

  /** Calls from any number of requests, split where they await: a read, and for a call that
      missed a notification and the write of a result it computed earlier. */
  datatype Event =
    | ReadAt(id: string, now: nat, redisOpen: bool)
    | NotifyAt(id: string, computed: nat, now: nat)
    | WriteAt(id: string, computed: nat, now: nat, redisOpen: bool)

  function Next(c: Cache, e: Event, full: Oracle): Cache {
    match e
    case ReadAt(id, now, open) => Read(c, id, now, open).0
    case NotifyAt(id, computed, now) =>
      if full(id, computed).Some? then Notify(c, id, full(id, computed).value, now) else c
    case WriteAt(id, computed, now, open) =>
      if full(id, computed).Some? then Write(c, id, full(id, computed).value, now, open) else c
  }

  function Run(events: seq<Event>, full: Oracle): Cache {
    if events == [] then Cache(map[], map[], [])
    else Next(Run(events[..|events| - 1], full), events[|events| - 1], full)
  }

  /** Event e wrote this entry: the result of a full verification, with an expiry counted from the
      write. */
  predicate Wrote(e: Event, id: string, entry: Entry, full: Oracle) {
    e.WriteAt? && e.id == id && full(id, e.computed) == Some(entry.payload) && entry.expiresAt == e.now + 60000
  }

  predicate Backed(table: Table, events: seq<Event>, full: Oracle) {
    forall id | id in table :: exists i | 0 <= i < |events| :: Wrote(events[i], id, table[id], full)
  }

  /** The clock does not go back, and a result is computed before it is written. */
  predicate Ordered(events: seq<Event>, now: nat) {
    && (forall i | 0 <= i < |events| ::
          events[i].now <= now && (events[i].WriteAt? ==> events[i].computed <= events[i].now))
    && forall i, j | 0 <= i < j < |events| :: events[i].now <= events[j].now
  }

  lemma BackedLonger(table: Table, events: seq<Event>, e: Event, ids: set<string>, full: Oracle)
    requires Backed(table, events, full)
    ensures Backed(table, events + [e], full) && Backed(table - ids, events + [e], full)
  {
    forall id | id in table
      ensures exists i | 0 <= i < |events + [e]| :: Wrote((events + [e])[i], id, table[id], full)
    {
      var i :| 0 <= i < |events| && Wrote(events[i], id, table[id], full);
      assert (events + [e])[i] == events[i];
    }
  }

  lemma WriteKeepsBacked(table: Table, events: seq<Event>, e: Event, full: Oracle)
    requires Backed(table, events, full) && e.WriteAt? && full(e.id, e.computed).Some?
    ensures Backed(table[e.id := Entry(full(e.id, e.computed).value, e.now + 60000)], events + [e], full)
  {
    BackedLonger(table, events, e, {}, full);
    var d := table[e.id := Entry(full(e.id, e.computed).value, e.now + 60000)];
    assert (events + [e])[|events|] == e && Wrote(e, e.id, d[e.id], full);
  }

  lemma NextKeepsBacked(c: Cache, events: seq<Event>, e: Event, full: Oracle)
    requires Backed(c.redis, events, full) && Backed(c.local, events, full)
    ensures Backed(Next(c, e, full).redis, events + [e], full) && Backed(Next(c, e, full).local, events + [e], full)
  {
    BackedLonger(c.redis, events, e, {e.id}, full);
    BackedLonger(c.local, events, e, {e.id}, full);
    if e.WriteAt? && full(e.id, e.computed).Some? {
      WriteKeepsBacked(c.redis, events, e, full);
      WriteKeepsBacked(c.local, events, e, full);
    }
  }

  /** In every interleaving each cached entry was written by some call that had computed it. */
  lemma {:induction false} RunBacked(events: seq<Event>, full: Oracle)
    ensures Backed(Run(events, full).redis, events, full) && Backed(Run(events, full).local, events, full)
  {
    if events != [] {
      var before, last := events[..|events| - 1], events[|events| - 1];
      RunBacked(before, full);
      NextKeepsBacked(Run(before, full), before, last, full);
      assert before + [last] == events;
    }
  }

  /** How old a cached result can be: whatever interleaves and however often the Redis store opens
      and closes, it is what a full verification of the tip gave, and its age is below 60 seconds
      plus the time that passed between computing and caching it. */
  lemma CachedResultsAreFresh(
      events: seq<Event>, id: string, now: nat, redisOpen: bool, full: Oracle)
    requires Ordered(events, now)
    requires Read(Run(events, full), id, now, redisOpen).1.Some?
    ensures exists i | 0 <= i < |events| ::
              && events[i].WriteAt? && events[i].id == id && events[i].computed <= events[i].now <= now
              && full(id, events[i].computed) == Read(Run(events, full), id, now, redisOpen).1
              && now - events[i].computed < 60000 + (events[i].now - events[i].computed)
  {
    RunBacked(events, full);
    var c := Run(events, full);
    var table := if redisOpen then c.redis else c.local;
    var i :| 0 <= i < |events| && Wrote(events[i], id, table[id], full);
    assert events[i].computed <= events[i].now <= now;
  }

  /** In particular, if no call takes longer than `delay` from its result to its cache entry, every
      cached result is less than 60 seconds plus `delay` old: with no delay, less than 60 seconds. */
  lemma PromptWritesStayFresh(
      events: seq<Event>, id: string, now: nat, redisOpen: bool, delay: nat, full: Oracle)
    requires Ordered(events, now)
    requires forall i | 0 <= i < |events| && events[i].WriteAt? :: events[i].now <= events[i].computed + delay
    requires Read(Run(events, full), id, now, redisOpen).1.Some?
    ensures exists t: nat ::
              t <= now < t + 60000 + delay && full(id, t) == Read(Run(events, full), id, now, redisOpen).1
  {
    CachedResultsAreFresh(events, id, now, redisOpen, full);
    var i :| 0 <= i < |events| && events[i].WriteAt? && events[i].computed <= now < events[i].now + 60000
             && full(id, events[i].computed) == Read(Run(events, full), id, now, redisOpen).1;
  }

  /** The cache answers a read at `now` with `v`. */
  predicate Serves(c: Cache, id: string, now: nat, redisOpen: bool, v: Verification) {
    Read(c, id, now, redisOpen).1 == Some(v)
  }

  ghost predicate ServedStale(c: Cache, id: string, computed: nat, redisOpen: bool, v: Verification) {
    exists now: nat :: now >= computed + 60000 && Serves(c, id, now, redisOpen, v)
  }

  lemma StaleExactly(c: Cache, id: string, computed: nat, written: nat, open: bool, v: Verification)
    requires computed <= written && id in StoreInUse(c, open) && StoreInUse(c, open)[id] == Entry(v, written + 60000)
    ensures ServedStale(c, id, computed, open, v) <==> written > computed
  {
    if written > computed {
      assert Serves(c, id, written + 60000 - 1, open, v);
    }
  }

  /** The delay does count: after any run, a result is at some time served 60 seconds or more after
      it was computed if and only if it was not cached at once. */
  lemma LateWriteServedStale(before: seq<Event>, id: string, computed: nat, written: nat, open: bool, full: Oracle)
    requires computed <= written && full(id, computed).Some?
    ensures var c := Run(before + [WriteAt(id, computed, written, open)], full);
            ServedStale(c, id, computed, open, full(id, computed).value) <==> written > computed
  {
    var e := WriteAt(id, computed, written, open);
    assert (before + [e])[..|before|] == before;
    var c := Run(before + [e], full);
    assert c == Write(Run(before, full), id, full(id, computed).value, written, open);
    StaleExactly(c, id, computed, written, open, full(id, computed).value);
  }

  // ---------- Sequential calls ----------

  function RunCalls(calls: seq<Call>, full: Oracle): Cache {
    if calls == [] then Cache(map[], map[], [])
    else VerifyTip(RunCalls(calls[..|calls| - 1], full), calls[|calls| - 1], full).0
  }

  predicate Sequential(calls: seq<Call>) {
    (forall i | 0 <= i < |calls| :: Timed(calls[i]))
    && forall i, j | 0 <= i < j < |calls| :: calls[i].written <= calls[j].start
  }

  /** A notice is old, or the entry written with it (or after it) still answers for the tip. */
  predicate NoticesCovered(c: Cache, now: nat, redisOpen: bool) {
    var table := StoreInUse(c, redisOpen);
    forall n | n in c.notices ::
      now >= n.time + 60000 || (n.tipId in table && table[n.tipId].expiresAt >= n.time + 60000)
  }

  predicate NoticesSpaced(notices: seq<Notice>) {
    forall i, j | 0 <= i < j < |notices| && notices[i].tipId == notices[j].tipId ::
      notices[j].time >= notices[i].time + 60000
  }

  lemma ReadKeepsCover(c: Cache, id: string, was: nat, now: nat, redisOpen: bool)
    requires NoticesCovered(c, was, redisOpen) && was <= now
    ensures NoticesCovered(Read(c, id, now, redisOpen).0, now, redisOpen)
    ensures Read(c, id, now, redisOpen).1.None? ==> forall n | n in c.notices && n.tipId == id :: now >= n.time + 60000
  {
  }

  lemma NotifyKeepsSpacing(c: Cache, id: string, v: Verification, start: nat, noticed: nat)
    requires NoticesSpaced(c.notices) && start <= noticed
    requires forall n | n in c.notices && n.tipId == id :: start >= n.time + 60000
    ensures NoticesSpaced(Notify(c, id, v, noticed).notices)
  {
    forall i | 0 <= i < |c.notices| && c.notices[i].tipId == id
      ensures noticed >= c.notices[i].time + 60000
    {
      assert c.notices[i] in c.notices;
    }
  }

  lemma WriteKeepsCover(c: Cache, call: Call, v: Verification, redisOpen: bool)
    requires Timed(call) && NoticesCovered(c, call.start, redisOpen)
    requires forall n | n in c.notices && n.tipId == call.id :: call.start >= n.time + 60000
    ensures NoticesCovered(Write(Notify(c, call.id, v, call.noticed), call.id, v, call.written, redisOpen),
                           call.written, redisOpen)
  {
    var d := Write(Notify(c, call.id, v, call.noticed), call.id, v, call.written, redisOpen);
    assert StoreInUse(d, redisOpen) == StoreInUse(c, redisOpen)[call.id := Entry(v, call.written + 60000)];
    assert forall n | n in d.notices :: n in c.notices || n == Notice(call.id, call.noticed);
  }

  lemma CallKeepsSpacing(c: Cache, call: Call, now: nat, redisOpen: bool, full: Oracle)
    requires call.openAtRead == call.openAtWrite == redisOpen && now <= call.start && Timed(call)
    requires NoticesCovered(c, now, redisOpen) && NoticesSpaced(c.notices)
    ensures var d := VerifyTip(c, call, full).0;
            NoticesCovered(d, call.written, redisOpen) && NoticesSpaced(d.notices)
  {
    ReadKeepsCover(c, call.id, now, call.start, redisOpen);
    var (d, hit) := Read(c, call.id, call.start, redisOpen);
    if hit.None? && full(call.id, call.computed).Some? {
      var v := full(call.id, call.computed).value;
      NotifyKeepsSpacing(d, call.id, v, call.start, call.noticed);
      WriteKeepsCover(d, call, v, redisOpen);
    } else {
      CoverLater(d, call.start, call.written, redisOpen);
    }
  }

  lemma CoverLater(c: Cache, was: nat, now: nat, redisOpen: bool)
    requires NoticesCovered(c, was, redisOpen) && was <= now
    ensures NoticesCovered(c, now, redisOpen)
  {
  }

  lemma {:induction false} CallsKeepSpacing(calls: seq<Call>, redisOpen: bool, full: Oracle)
    requires Sequential(calls)
    requires forall i | 0 <= i < |calls| :: calls[i].openAtRead == calls[i].openAtWrite == redisOpen
    ensures var c := RunCalls(calls, full);
            var now := if calls == [] then 0 else calls[|calls| - 1].written;
            NoticesCovered(c, now, redisOpen) && NoticesSpaced(c.notices)
  {
    if calls != [] {
      var before := calls[..|calls| - 1];
      CallsKeepSpacing(before, redisOpen, full);
      var now := if before == [] then 0 else before[|before| - 1].written;
      CallKeepsSpacing(RunCalls(before, full), calls[|calls| - 1], now, redisOpen, full);
    }
  }

  /** With one store in use and calls one after another, two discrepancy notifications for a tip
      are at least 60 seconds apart. */
  lemma DiscrepancyNoticesSpaced(calls: seq<Call>, redisOpen: bool, full: Oracle)
    requires Sequential(calls)
    requires forall i | 0 <= i < |calls| :: calls[i].openAtRead == calls[i].openAtWrite == redisOpen
    ensures NoticesSpaced(RunCalls(calls, full).notices)
  {
    CallsKeepSpacing(calls, redisOpen, full);
  }

  // ---------- Which calls notify, with any interleaving ----------

  /** Event e cached a result of the tip in the store. */
  predicate Caches(e: Event, id: string, redisOpen: bool, full: Oracle) {
    e.WriteAt? && e.id == id && e.redisOpen == redisOpen && full(id, e.computed).Some?
  }

  /** It did, and its entry has not expired at `now`. */
  predicate StillCached(e: Event, id: string, now: nat, redisOpen: bool, full: Oracle) {
    Caches(e, id, redisOpen, full) && now < e.now + 60000
  }

  /** Exactly when a call has to verify again, and so notifies a mismatch: whatever interleaves, its
      read misses if and only if nobody has cached a result of the tip in the store it reads within
      the last 60 seconds. */
  lemma {:induction false} MissExactly(events: seq<Event>, id: string, now: nat, redisOpen: bool, full: Oracle)
    requires Ordered(events, now)
    ensures Read(Run(events, full), id, now, redisOpen).1.None?
            <==> forall i | 0 <= i < |events| :: !StillCached(events[i], id, now, redisOpen, full)
  {
    if events != [] {
      var before, last := events[..|events| - 1], events[|events| - 1];
      MissExactly(before, id, now, redisOpen, full);
      assert forall i | 0 <= i < |before| :: before[i] == events[i];
      if last.WriteAt? && last.id == id && last.redisOpen == redisOpen && full(id, last.computed).Some? {
        assert StoreInUse(Run(events, full), redisOpen)[id].expiresAt == last.now + 60000;
        assert forall i | 0 <= i < |before| :: before[i].now <= last.now;
      }
    }
  }

  /** Event i was the last to cache a result of the tip in the store. */
  predicate CachedLast(events: seq<Event>, i: nat, id: string, redisOpen: bool, full: Oracle) {
    && i < |events| && Caches(events[i], id, redisOpen, full)
    && forall k | i < k < |events| :: !Caches(events[k], id, redisOpen, full)
  }

  lemma {:induction false} EntryIsLast(events: seq<Event>, id: string, redisOpen: bool, full: Oracle) returns (i: nat)
    requires id in StoreInUse(Run(events, full), redisOpen)
    ensures CachedLast(events, i, id, redisOpen, full)
    ensures StoreInUse(Run(events, full), redisOpen)[id]
         == Entry(full(id, events[i].computed).value, events[i].now + 60000)
  {
    var before, last := events[..|events| - 1], events[|events| - 1];
    if Caches(last, id, redisOpen, full) {
      i := |before|;
    } else {
      i := EntryIsLast(before, id, redisOpen, full);
      assert forall k | 0 <= k < |before| :: before[k] == events[k];
    }
  }

  /** What a call answers, after any run of events: on a miss what a full verification of the tip
      gives when it is computed, or that there is no such tip; on a hit what a full verification gave
      to the call that cached it last in the store, less than 60 seconds before. It is a hit exactly
      if that entry has not expired. */
  lemma CallAnswersExactly(events: seq<Event>, call: Call, full: Oracle)
    requires Ordered(events, call.start)
    ensures var missed := forall k | 0 <= k < |events| ::
                            !StillCached(events[k], call.id, call.start, call.openAtRead, full);
            match VerifyTip(Run(events, full), call, full).1
            case NotFound => missed && full(call.id, call.computed) == None
            case Verified(v) => missed && full(call.id, call.computed) == Some(v)
            case Cached(v) =>
              !missed && exists i: nat ::
                && CachedLast(events, i, call.id, call.openAtRead, full)
                && full(call.id, events[i].computed) == Some(v)
                && events[i].computed <= events[i].now <= call.start < events[i].now + 60000
  {
    MissExactly(events, call.id, call.start, call.openAtRead, full);
    if call.id in StoreInUse(Run(events, full), call.openAtRead) {
      var i := EntryIsLast(events, call.id, call.openAtRead, full);
      assert CachedLast(events, i, call.id, call.openAtRead, full);
    }
  }

  /** What a call leaves behind: a result that was verified now is cached for 60 seconds in the store
      open at the write, after a notice if it is a mismatch; any other answer caches and notifies
      nothing. Entries of other tips are not touched. */
  lemma CallLeavesExactly(c: Cache, call: Call, full: Oracle)
    ensures var (d, r) := VerifyTip(c, call, full);
            && d.notices
               == c.notices + (if r.Verified? && !r.value.matches then [Notice(call.id, call.noticed)] else [])
            && (r.Verified? ==>
                  && call.id in StoreInUse(d, call.openAtWrite)
                  && StoreInUse(d, call.openAtWrite)[call.id] == Entry(r.value, call.written + 60000))
            && (!(r.Verified? && call.openAtWrite) ==> d.redis == c.redis)
            && (!(r.Verified? && !call.openAtWrite) ==> d.local == c.local || d.local == c.local - {call.id})
            && d.redis - {call.id} == c.redis - {call.id} && d.local - {call.id} == c.local - {call.id}
  {
  }

  /** The run `before`, and then what a call that misses does up to a time. */
  function WithCall(before: seq<Event>, call: Call, until: nat): seq<Event> {
    var read := before + [ReadAt(call.id, call.start, call.openAtRead)];
    var noted := if call.noticed <= until then read + [NotifyAt(call.id, call.computed, call.noticed)] else read;
    if call.written <= until then noted + [WriteAt(call.id, call.computed, call.written, call.openAtWrite)] else noted
  }

  lemma OneEvent(events: seq<Event>, e: Event, full: Oracle)
    ensures Run(events + [e], full) == Next(Run(events, full), e, full)
  {
    assert (events + [e])[..|events|] == events;
  }

  lemma WithCallRuns(before: seq<Event>, a: Call, until: nat, full: Oracle)
    requires Mismatching(a, full)
    ensures var v := full(a.id, a.computed).value;
            var missed := Read(Run(before, full), a.id, a.start, a.openAtRead).0;
            var noted := if a.noticed <= until then Notify(missed, a.id, v, a.noticed) else missed;
            Run(WithCall(before, a, until), full)
            == if a.written <= until then Write(noted, a.id, v, a.written, a.openAtWrite) else noted
  {
    var read := before + [ReadAt(a.id, a.start, a.openAtRead)];
    OneEvent(before, ReadAt(a.id, a.start, a.openAtRead), full);
    OneEvent(read, NotifyAt(a.id, a.computed, a.noticed), full);
    var noted := if a.noticed <= until then read + [NotifyAt(a.id, a.computed, a.noticed)] else read;
    OneEvent(noted, WriteAt(a.id, a.computed, a.written, a.openAtWrite), full);
  }

  /** A call that finds a mismatch if it has to verify. */
  predicate Mismatching(call: Call, full: Oracle) {
    Timed(call) && full(call.id, call.computed).Some? && !full(call.id, call.computed).value.matches
  }

  /** Exactly when a mismatch that lasts is notified twice: of two calls for one tip, with nothing
      cached before the first, the second notifies as well if and only if it reads before the first
      has cached its result, or from the store the first did not write, or after the first entry has
      expired. The two may overlap in any way. */
  lemma SecondNoticeExactly(before: seq<Event>, a: Call, b: Call, full: Oracle)
    requires a.id == b.id && Mismatching(a, full) && Mismatching(b, full) && a.start <= b.start
    requires Ordered(before, a.start)
    requires forall open :: Read(Run(before, full), a.id, a.start, open).1.None?
    ensures Run(WithCall(before, a, a.written), full).notices == Run(before, full).notices + [Notice(a.id, a.noticed)]
    ensures var seen := Run(WithCall(before, a, b.start), full);
            VerifyTip(seen, b, full).0.notices
            == if b.start < a.written || b.openAtRead != a.openAtWrite || b.start >= a.written + 60000
               then seen.notices + [Notice(b.id, b.noticed)] else seen.notices
  {
    WithCallRuns(before, a, a.written, full);
    WithCallRuns(before, a, b.start, full);
    NothingFresh(Run(before, full), a, b);
  }

  lemma NothingFresh(c: Cache, a: Call, b: Call)
    requires a.start <= b.start && forall open :: Read(c, a.id, a.start, open).1.None?
    ensures !Fresh(c.redis, a.id, b.start) && !Fresh(c.local, a.id, b.start)
  {
    assert Read(c, a.id, a.start, true).1.None? && Read(c, a.id, a.start, false).1.None?;
  }
}
