/** The script that Redis runs atomically for every rate-limited request. */
module ThrottlerScript {
  /** Limits of one throttled endpoint; durations in milliseconds. */
  datatype Limits = Limits(ttl: nat, limit: nat, blockDuration: nat) {
    predicate Valid() { ttl > 0 && blockDuration > 0 }
  }

  // ---------- The specification of one request ----------

  /** What Redis remembers about one throttle key. The hit counter is live until `hitsUntil`, the
      block until `blockedUntil`; 0 stands for a key that was never set. */
  datatype Counter = Counter(count: nat, hitsUntil: nat, blockedUntil: nat)

  const FRESH := Counter(0, 0, 0)

  datatype Answer = Answer(hits: nat, hitTtl: int, blocked: bool, blockTtl: int)

  /** `PTTL`: milliseconds left, or -2 when the key is gone. */
  function TimeLeft(until: nat, now: nat): int {
    if now < until then until - now else -2
  }

  function LiveCount(c: Counter, now: nat): nat {
    if now < c.hitsUntil then c.count else 0
  }

  function Step(c: Counter, now: nat, lim: Limits): (Counter, Answer) {
    if now < c.blockedUntil then
      (c, Answer(LiveCount(c, now), TimeLeft(c.hitsUntil, now), true, c.blockedUntil - now))
    else
      var hits := LiveCount(c, now) + 1;
      var until := if hits == 1 then now + lim.ttl else c.hitsUntil;
      if hits > lim.limit then
        (Counter(hits, until, now + lim.blockDuration), Answer(hits, TimeLeft(until, now), true, lim.blockDuration))
      else
        (Counter(hits, until, c.blockedUntil), Answer(hits, TimeLeft(until, now), false, 0))
  }

  // ---------- The key space ----------

  datatype Expiry = Never | Until(time: nat)
  datatype Entry = Entry(value: nat, expiry: Expiry)
  type Keyspace = map<string, Entry>

  predicate LiveEntry(e: Entry, now: nat) { e.expiry.Never? || now < e.expiry.time }

  predicate Live(db: Keyspace, name: string, now: nat) { name in db && LiveEntry(db[name], now) }

  function HitsName(key: string): string { key + ":hits" }
  function BlockedName(key: string): string { key + ":blocked" }

  /** Between two scripts the keys of a throttle key carry an expiry and a positive count. */
  predicate WellKept(db: Keyspace, key: string) {
    && (HitsName(key) in db ==> db[HitsName(key)].expiry.Until? && db[HitsName(key)].value > 0)
    && (BlockedName(key) in db ==> db[BlockedName(key)].expiry.Until?)
  }

  function CounterOf(db: Keyspace, key: string): Counter
    requires WellKept(db, key)
  {
    Counter(
      if HitsName(key) in db then db[HitsName(key)].value else 0,
      if HitsName(key) in db then db[HitsName(key)].expiry.time else 0,
      if BlockedName(key) in db then db[BlockedName(key)].expiry.time else 0)
  }

  /** No two throttle keys share a Redis key, whatever their texts. */
  lemma NamesNeverCollide(key: string, other: string)
    ensures HitsName(key) != BlockedName(other)
    ensures HitsName(key) == HitsName(other) ==> key == other
    ensures BlockedName(key) == BlockedName(other) ==> key == other
  {
    var h, b := HitsName(key), BlockedName(other);
    assert h[|h| - 1] == 's' && b[|b| - 1] == 'd';
    assert h[..|key|] == key && HitsName(other)[..|other|] == other;
    assert BlockedName(key)[..|key|] == key && b[..|other|] == other;
  }

  class RedisStore {
    var db: Keyspace

    method Pttl(name: string, now: nat) returns (ms: int)
      ensures Live(db, name, now) && db[name].expiry.Until? ==> ms == db[name].expiry.time - now
      ensures Live(db, name, now) && db[name].expiry.Never? ==> ms == -1
      ensures !Live(db, name, now) ==> ms == -2
    {
      if !Live(db, name, now) {
        ms := -2;
      } else if db[name].expiry.Never? {
        ms := -1;
      } else {
        ms := db[name].expiry.time - now;
      }
    }

    /** `tonumber(GET name or '0')`. */
    method Get(name: string, now: nat) returns (value: nat)
      ensures value == if Live(db, name, now) then db[name].value else 0
    {
      value := if Live(db, name, now) then db[name].value else 0;
    }

    /** Adds one, keeping the expiry; a missing key counts from 0 and gets no expiry. */
    method Incr(name: string, now: nat) returns (value: nat)
      modifies this
      ensures value == (if Live(old(db), name, now) then old(db)[name].value else 0) + 1
      ensures db == old(db)[name := Entry(value, if Live(old(db), name, now) then old(db)[name].expiry else Never)]
    {
      var before := if Live(db, name, now) then db[name] else Entry(0, Never);
      value := before.value + 1;
      db := db[name := Entry(value, before.expiry)];
    }

    method Pexpire(name: string, now: nat, ms: nat)
      requires Live(db, name, now)
      modifies this
      ensures db == old(db)[name := Entry(old(db)[name].value, Until(now + ms))]
    {
      db := db[name := Entry(db[name].value, Until(now + ms))];
    }

    /** `SET name value PX ms`. */
    method SetPx(name: string, value: nat, now: nat, ms: nat)
      modifies this
      ensures db == old(db)[name := Entry(value, Until(now + ms))]
    {
      db := db[name := Entry(value, Until(now + ms))];
    }

    /** The whole script, command by command. It is one step of the counter's specification and
        leaves the counter of every other throttle key alone. */
    method Eval(key: string, lim: Limits, now: nat) returns (answer: Answer)
      requires WellKept(db, key) && lim.Valid()
      modifies this
      ensures WellKept(db, key)
      ensures (CounterOf(db, key), answer) == Step(CounterOf(old(db), key), now, lim)
      ensures forall other | other != key && WellKept(old(db), other) ::
                WellKept(db, other) && CounterOf(db, other) == CounterOf(old(db), other)
    {
      forall other | other != key
        ensures HitsName(other) != HitsName(key) && HitsName(other) != BlockedName(key)
        ensures BlockedName(other) != HitsName(key) && BlockedName(other) != BlockedName(key)
      {
        NamesNeverCollide(key, other);
        NamesNeverCollide(other, key);
      }
      NamesNeverCollide(key, key);
      var hitsKey, blockKey := HitsName(key), BlockedName(key);
      var blockTtl := Pttl(blockKey, now);
      if blockTtl > 0 {
        var currentHits := Get(hitsKey, now);
        var hitTtl := Pttl(hitsKey, now);
        return Answer(currentHits, hitTtl, true, blockTtl);
      }
      var hits := Incr(hitsKey, now);
      if hits == 1 {
        Pexpire(hitsKey, now, lim.ttl);
      }
      var hitTtl := Pttl(hitsKey, now);
      if hits > lim.limit {
        SetPx(blockKey, 1, now, lim.blockDuration);
        return Answer(hits, hitTtl, true, lim.blockDuration);
      }
      return Answer(hits, hitTtl, false, 0);
    }
  }
}
