/** The login throttle: a bounded allocator of password-check slots with exponential backoff per client
    address and per account (`loginThrottle.begin`, `loginAttempt.finish` and their helpers). Each method
    is one critical section of the program's mutex; the clock reading is a parameter, because the
    program reads it before taking the lock. */
module LoginThrottle {
  import opened Machine
  import Text
  import opened FiniteSets

  /** Nanoseconds since the zero time, which stands for "never". */
  type Instant = nat
  const NEVER: Instant := 0

  datatype Config = Config(
    failureThreshold: int,
    baseBackoff: int64,
    maxBackoff: int64,
    entryTTL: int,
    busyRetry: int,
    maxEntries: int,
    maxConcurrent: int,
    maxPerIdentity: int)

  const DEFAULTS := Config(3, 1_000_000_000, 30_000_000_000, 900_000_000_000, 1_000_000_000, 4096, 4, 2)

  predicate Sound(c: Config) {
    && c.failureThreshold > 0 && c.baseBackoff > 0 && c.maxBackoff > 0 && c.entryTTL > 0 && c.busyRetry > 0
    && c.maxEntries > 0 && c.maxConcurrent > 0 && c.maxPerIdentity > 0
  }

  /** Non-positive settings fall back to the defaults. */
  function WithDefaults(c: Config): (d: Config)
    ensures Sound(d)
    ensures Sound(c) ==> d == c
    ensures c.failureThreshold > 0 ==> d.failureThreshold == c.failureThreshold
    ensures c.baseBackoff > 0 ==> d.baseBackoff == c.baseBackoff
    ensures c.maxBackoff > 0 ==> d.maxBackoff == c.maxBackoff
    ensures c.entryTTL > 0 ==> d.entryTTL == c.entryTTL
    ensures c.busyRetry > 0 ==> d.busyRetry == c.busyRetry
    ensures c.maxEntries > 0 ==> d.maxEntries == c.maxEntries
    ensures c.maxConcurrent > 0 ==> d.maxConcurrent == c.maxConcurrent
    ensures c.maxPerIdentity > 0 ==> d.maxPerIdentity == c.maxPerIdentity
  {
    Config(
      if c.failureThreshold > 0 then c.failureThreshold else DEFAULTS.failureThreshold,
      if c.baseBackoff > 0 then c.baseBackoff else DEFAULTS.baseBackoff,
      if c.maxBackoff > 0 then c.maxBackoff else DEFAULTS.maxBackoff,
      if c.entryTTL > 0 then c.entryTTL else DEFAULTS.entryTTL,
      if c.busyRetry > 0 then c.busyRetry else DEFAULTS.busyRetry,
      if c.maxEntries > 0 then c.maxEntries else DEFAULTS.maxEntries,
      if c.maxConcurrent > 0 then c.maxConcurrent else DEFAULTS.maxConcurrent,
      if c.maxPerIdentity > 0 then c.maxPerIdentity else DEFAULTS.maxPerIdentity)
  }

  datatype Entry = Entry(failures: nat, inFlight: int, nextAllowed: Instant, lastSeen: Instant)

  type Table = map<string, Entry>

  // ----- Backoff -------------------------------------------------------------------------------------

  function Pow2(n: nat): int { if n == 0 then 1 else 2 * Pow2(n - 1) }

  function Min(a: int, b: int): int { if a < b then a else b }

  function Max(a: int, b: int): int { if a > b then a else b }

  /** Doubling from the base for every failure past the threshold, capped. */
  function BackoffFor(c: Config, failures: int): int {
    Min(c.maxBackoff as int, c.baseBackoff as int * Pow2(Max(0, failures - c.failureThreshold)))
  }

  lemma {:induction false} Pow2Monotone(m: nat, n: nat)
    requires m <= n
    ensures 0 < Pow2(m) <= Pow2(n)
  {
    if m < n {
      Pow2Monotone(m, n - 1);
    } else if m > 0 {
      Pow2Monotone(m - 1, m - 1);
    }
  }

  lemma ScaledMonotone(base: int, m: nat, n: nat)
    requires base > 0 && m <= n
    ensures 0 < base * Pow2(m) <= base * Pow2(n)
  {
    Pow2Monotone(m, n);
    Pow2Monotone(0, m);
    assert base * (Pow2(n) - Pow2(m)) >= 0;
    assert base * Pow2(m) > 0;
  }

  lemma ScaledDoubles(base: int, n: nat)
    ensures base * Pow2(0) == base && base * Pow2(n + 1) == 2 * (base * Pow2(n))
  {
    assert Pow2(n + 1) == 2 * Pow2(n);
  }

  /** More failures never mean a shorter wait. */
  lemma BackoffMonotone(c: Config, f: int, g: int)
    requires Sound(c) && f <= g
    ensures 0 < BackoffFor(c, f) <= BackoffFor(c, g) <= c.maxBackoff as int
  {
    ScaledMonotone(c.baseBackoff as int, Max(0, f - c.failureThreshold), Max(0, g - c.failureThreshold));
    ScaledMonotone(c.baseBackoff as int, 0, Max(0, f - c.failureThreshold));
  }

  /** The doubling loop computes the capped power without ever leaving the 64-bit range. */
  method Backoff(c: Config, failures: int) returns (delay: int64)
    requires Sound(c)
    ensures delay as int == BackoffFor(c, failures)
  {
    hide Pow2;
    delay := c.baseBackoff;
    var step := c.failureThreshold;
    ScaledDoubles(c.baseBackoff as int, 0);
    while step < failures && delay < c.maxBackoff
      invariant step >= c.failureThreshold && (step > c.failureThreshold ==> step <= failures)
      invariant delay as int == c.baseBackoff as int * Pow2(step - c.failureThreshold) && delay > 0
      decreases failures - step
    {
      ScaledMonotone(c.baseBackoff as int, step - c.failureThreshold + 1, failures - c.failureThreshold);
      ScaledDoubles(c.baseBackoff as int, step - c.failureThreshold);
      if delay > c.maxBackoff / 2 {
        return c.maxBackoff;
      }
      delay := delay * 2;
      step := step + 1;
    }
    ScaledMonotone(c.baseBackoff as int, step - c.failureThreshold,
                   Max(step - c.failureThreshold, failures - c.failureThreshold));
    if delay > c.maxBackoff {
      return c.maxBackoff;
    }
  }

  // ----- Pruning and eviction ----------------------------------------------------------------------------

  predicate Expired(e: Entry, ttl: int, now: Instant) { e.inFlight == 0 && now - e.lastSeen >= ttl }

  function Pruned(entries: Table, ttl: int, now: Instant): Table {
    map k | k in entries && !Expired(entries[k], ttl, now) :: entries[k]
  }

  /** The pruning loop. */
  method PruneExpired(entries: Table, ttl: int, now: Instant) returns (kept: Table)
    ensures kept == Pruned(entries, ttl, now)
  {
    kept := entries;
    var todo := entries.Keys;
    while todo != {}
      invariant todo <= entries.Keys
      invariant kept == map k | k in entries && (k in todo || !Expired(entries[k], ttl, now)) :: entries[k]
      decreases todo
    {
      var key :| key in todo;
      todo := todo - {key};
      if entries[key].inFlight == 0 && now - entries[key].lastSeen >= ttl {
        kept := kept - {key};
      }
    }
  }

  predicate Blocked(e: Entry, now: Instant) { e.nextAllowed > now }

  /** An entry may be evicted when it is idle and not one the caller is about to use. */
  predicate Evictable(entries: Table, keys: seq<string>, k: string) {
    k in entries && k !in keys && entries[k].inFlight <= 0
  }

  /** `a` goes before `b`: entries not in backoff first, then the longest unseen. */
  predicate Sooner(a: Entry, b: Entry, now: Instant) {
    if Blocked(a, now) != Blocked(b, now) then !Blocked(a, now) else a.lastSeen < b.lastSeen
  }

  /** The entry to evict, whatever order the table is visited in: no evictable entry goes before it. */
  method EvictionVictim(entries: Table, keys: seq<string>, now: Instant) returns (oldestKey: string)
    requires "" !in entries
    ensures oldestKey == "" <==> forall k | k in entries :: !Evictable(entries, keys, k)
    ensures oldestKey != "" ==> Evictable(entries, keys, oldestKey)
    ensures oldestKey != "" ==>
              forall k | Evictable(entries, keys, k) :: !Sooner(entries[k], entries[oldestKey], now)
  {
    oldestKey := "";
    var oldest, oldestBlocked := NEVER, false;
    var todo := entries.Keys;
    while todo != {}
      invariant todo <= entries.Keys
      invariant oldestKey == "" ==> forall k | k in entries.Keys - todo :: !Evictable(entries, keys, k)
      invariant oldestKey != "" ==>
                  && Evictable(entries, keys, oldestKey)
                  && oldest == entries[oldestKey].lastSeen && oldestBlocked == Blocked(entries[oldestKey], now)
                  && forall k | k in entries.Keys - todo && Evictable(entries, keys, k) ::
                       !Sooner(entries[k], entries[oldestKey], now)
      decreases todo
    {
      var key :| key in todo;
      todo := todo - {key};
      var entry := entries[key];
      if key in keys || entry.inFlight > 0 {
        continue;
      }
      var blocked := entry.nextAllowed > now;
      if oldestKey != "" {
        if oldestBlocked != blocked {
          if !oldestBlocked {
            continue;
          }
        } else if !(entry.lastSeen < oldest) {
          continue;
        }
      }
      oldestKey, oldest, oldestBlocked := key, entry.lastSeen, blocked;
    }
  }

  /** The entries that no eviction can remove. */
  function Pinned(entries: Table, keys: seq<string>): set<string> {
    set k | k in entries && !Evictable(entries, keys, k)
  }

  /** `kept` is `entries` without some evictable ones, none of which goes after one that was kept. */
  ghost predicate EvictedInOrder(entries: Table, kept: Table, keys: seq<string>, now: Instant) {
    && kept.Keys <= entries.Keys
    && (forall k | k in kept :: kept[k] == entries[k])
    && (forall k | k in entries && k !in kept :: Evictable(entries, keys, k))
    && (forall k, r | Evictable(kept, keys, k) && r in entries && r !in kept :: !Sooner(entries[k], entries[r], now))
  }

  lemma EvictOneMore(entries: Table, kept: Table, keys: seq<string>, now: Instant, victim: string)
    requires EvictedInOrder(entries, kept, keys, now) && Evictable(kept, keys, victim)
    requires forall k | Evictable(kept, keys, k) :: !Sooner(kept[k], kept[victim], now)
    ensures EvictedInOrder(entries, kept - {victim}, keys, now)
    ensures Pinned(kept - {victim}, keys) == Pinned(kept, keys)
    ensures |kept - {victim}| == |kept| - 1
  {
    var fewer := kept - {victim};
    forall k, r | Evictable(fewer, keys, k) && r in entries && r !in fewer
      ensures !Sooner(entries[k], entries[r], now)
    {
      assert Evictable(kept, keys, k);
    }
    assert kept.Keys == fewer.Keys + {victim};
    assert |fewer.Keys| == |kept.Keys| - 1;
  }

  /** Make room for `missing` new entries. It succeeds exactly when the entries that cannot be evicted
      leave enough room, evicts in order, and no more than it must. */
  method EnsureCapacity(entries: Table, missing: nat, keys: seq<string>, now: Instant, maxEntries: int)
    returns (ok: bool, kept: Table)
    requires "" !in entries
    ensures ok <==> |Pinned(entries, keys)| + missing <= maxEntries
    ensures ok ==> |kept| + missing <= maxEntries
    ensures EvictedInOrder(entries, kept, keys, now)
    ensures kept != entries && ok ==> |kept| + missing == maxEntries
    ensures |entries| + missing <= maxEntries ==> kept == entries
  {
    hide EvictedInOrder;
    kept := entries;
    NothingEvicted(entries, keys, now);
    while |kept| + missing > maxEntries
      invariant EvictedInOrder(entries, kept, keys, now) && "" !in kept
      invariant Pinned(kept, keys) == Pinned(entries, keys) <= kept.Keys
      invariant kept == entries || |kept| + missing >= maxEntries
      invariant |entries| + missing <= maxEntries ==> kept == entries
      decreases |kept|
    {
      var victim := EvictionVictim(kept, keys, now);
      if victim == "" {
        assert Pinned(kept, keys) == kept.Keys;
        return false, kept;
      }
      EvictOneMore(entries, kept, keys, now, victim);
      kept := kept - {victim};
    }
    SubsetSize(Pinned(kept, keys), kept.Keys);
    ok := true;
  }

  /** An entry in backoff is evicted only when no other that could go is left, and of two alike the one that
      was seen last stays. */
  lemma EvictedLast(entries: Table, kept: Table, keys: seq<string>, now: Instant, gone: string, k: string)
    requires EvictedInOrder(entries, kept, keys, now) && gone in entries && gone !in kept
    requires k in kept && k !in keys && kept[k].inFlight <= 0
    ensures gone !in keys && entries[gone].inFlight <= 0
    ensures entries[gone].nextAllowed > now ==> entries[k].nextAllowed > now
    ensures (entries[gone].nextAllowed > now <==> entries[k].nextAllowed > now) ==>
              entries[gone].lastSeen <= entries[k].lastSeen
  {
    assert Evictable(kept, keys, k);
  }

  lemma NothingEvicted(entries: Table, keys: seq<string>, now: Instant)
    ensures EvictedInOrder(entries, entries, keys, now) && Pinned(entries, keys) <= entries.Keys
  {
  }

  // ----- Admission -----------------------------------------------------------------------------------------

  /** The table keys of one login: the client address and a digest of the normalised account. */
  function KeysFor(clientIP: string, username: string, digest: string -> string): (keys: seq<string>)
    ensures |keys| == 2 && keys[0] != keys[1] && "" !in keys
  {
    var ip, account := "ip:" + (if Text.TrimSpace(clientIP) == "" then "unknown" else clientIP),
                       "account:" + digest(Text.ToLower(Text.TrimSpace(username)));
    assert ip[0] == 'i' && account[0] == 'a';
    [ip, account]
  }

  ghost predicate Injective(digest: string -> string) {
    forall a, b :: digest(a) == digest(b) ==> a == b
  }

  /** Two logins fall under the same account key if and only if their names agree letter by letter up to case,
      without the white space around them, and under the same address key if and only if the addresses are the
      same or both are blank or "unknown". */
  lemma SharedKeysExactly(digest: string -> string, ip: string, user: string, otherIp: string, other: string,
                          a: nat, b: nat, c: nat, d: nat)
    requires Injective(digest) && Text.CoreAt(user, a, b) && Text.CoreAt(other, c, d)
    ensures KeysFor(ip, user, digest)[1] == KeysFor(otherIp, other, digest)[1]
       <==> Text.SameLetters(user[a..b], other[c..d])
    ensures KeysFor(ip, user, digest)[0] == KeysFor(otherIp, other, digest)[0]
       <==> ip == otherIp || (Unknown(ip) && Unknown(otherIp))
  {
    hide Text.TrimSpace, Text.ToLower;
    Text.TrimIs(user, a, b);
    Text.TrimIs(other, c, d);
    Text.LowerEqualExactly(user[a..b], other[c..d]);
    var mine, theirs := digest(Text.ToLower(user[a..b])), digest(Text.ToLower(other[c..d]));
    assert ("account:" + mine)[8..] == mine && ("account:" + theirs)[8..] == theirs;
    BlankTrims(ip);
    BlankTrims(otherIp);
    assert ("ip:" + ip)[3..] == ip && ("ip:" + otherIp)[3..] == otherIp && ("ip:" + "unknown")[3..] == "unknown";
  }

  /** An address that is not given, or given as "unknown". */
  predicate Unknown(ip: string) { ip == "unknown" || forall i | 0 <= i < |ip| :: Text.Blank(ip[i]) }

  lemma BlankTrims(ip: string)
    ensures Text.TrimSpace(ip) == "" <==> forall i | 0 <= i < |ip| :: Text.Blank(ip[i])
  {
    var a, b := Text.CoreOf(ip);
    Text.TrimIs(ip, a, b);
  }

  /** How long one key makes the caller wait, given what the others already do. */
  function WaitOn(c: Config, entries: Table, key: string, now: Instant, soFar: int): int {
    if key !in entries then soFar
    else
      var wait := Max(soFar, entries[key].nextAllowed - now);
      if entries[key].inFlight >= c.maxPerIdentity && c.busyRetry > wait then c.busyRetry else wait
  }

  function Wait(c: Config, entries: Table, keys: seq<string>, now: Instant): int {
    if keys == [] then 0 else WaitOn(c, entries, keys[|keys| - 1], now, Wait(c, entries, keys[..|keys| - 1], now))
  }

  /** No key is in backoff and none is at its own limit. */
  ghost predicate Free(c: Config, entries: Table, keys: seq<string>, now: Instant) {
    forall k | k in keys && k in entries :: !Blocked(entries[k], now) && entries[k].inFlight < c.maxPerIdentity
  }

  /** The caller need not wait exactly when no key is in backoff and none is at its own limit. */
  lemma {:induction false} WaitZeroExactly(c: Config, entries: Table, keys: seq<string>, now: Instant)
    requires Sound(c)
    ensures Wait(c, entries, keys, now) >= 0
    ensures Wait(c, entries, keys, now) == 0 <==> Free(c, entries, keys, now)
  {
    if keys != [] {
      var front, last := keys[..|keys| - 1], keys[|keys| - 1];
      WaitZeroExactly(c, entries, front, now);
      assert keys == front + [last];
    }
  }

  /** The wait is as long as the longest backoff of a key needs, and as the busy retry if a key is at its own
      limit; and no longer than the longest of these. */
  lemma {:induction false} WaitIsLongest(c: Config, entries: Table, keys: seq<string>, now: Instant)
    ensures var wait := Wait(c, entries, keys, now);
      && (forall k | k in keys && k in entries ::
            && entries[k].nextAllowed - now <= wait
            && (entries[k].inFlight >= c.maxPerIdentity ==> c.busyRetry <= wait))
      && (wait == 0 || exists k :: k in keys && k in entries && CausesWait(c, entries[k], now, wait))
  {
    if keys != [] {
      var front, last := keys[..|keys| - 1], keys[|keys| - 1];
      WaitIsLongest(c, entries, front, now);
      assert keys == front + [last];
      var soFar, wait := Wait(c, entries, front, now), Wait(c, entries, keys, now);
      if wait != soFar {
        assert last in keys && CausesWait(c, entries[last], now, wait);
      } else if wait != 0 {
        var k :| k in front && k in entries && CausesWait(c, entries[k], now, wait);
        assert k in keys;
      }
    }
  }

  predicate CausesWait(c: Config, e: Entry, now: Instant, wait: int) {
    e.nextAllowed - now == wait || (e.inFlight >= c.maxPerIdentity && c.busyRetry == wait)
  }

  function Started(entries: Table, key: string, now: Instant): Entry {
    if key in entries then entries[key].(inFlight := entries[key].inFlight + 1, lastSeen := now)
    else Entry(0, 1, NEVER, now)
  }

  /** The table after a login with the given keys has been admitted. */
  function Admitted(entries: Table, keys: seq<string>, now: Instant): Table {
    map k | k in entries.Keys + (set x | x in keys) :: if k in keys then Started(entries, k, now) else entries[k]
  }

  function Finished(c: Config, e: Entry, success: bool, now: Instant): Entry {
    var inFlight := if e.inFlight > 0 then e.inFlight - 1 else e.inFlight;
    if success then Entry(0, inFlight, NEVER, now)
    else
      var failures := e.failures + 1;
      Entry(failures, inFlight,
            if failures >= c.failureThreshold then now + Max(0, BackoffFor(c, failures)) else e.nextAllowed, now)
  }

  /** The table after a login with the given keys has finished. */
  function Released(c: Config, entries: Table, keys: seq<string>, success: bool, now: Instant): Table {
    map k | k in entries :: if k in keys then Finished(c, entries[k], success, now) else entries[k]
  }

  /** One entry is consistent with the number of unfinished logins that hold its key. */
  predicate GoodEntry(c: Config, e: Entry, holders: nat) {
    && e.inFlight == holders <= c.maxPerIdentity
    && e.nextAllowed <= e.lastSeen + c.maxBackoff as int
    && (e.failures < c.failureThreshold ==> e.nextAllowed == NEVER)
  }

  lemma FinishedGood(c: Config, e: Entry, holders: nat, success: bool, now: Instant)
    requires Sound(c) && GoodEntry(c, e, holders) && holders > 0
    ensures GoodEntry(c, Finished(c, e, success, now), holders - 1)
  {
    BackoffMonotone(c, e.failures + 1, e.failures + 1);
  }

  lemma StartedGood(c: Config, entries: Table, key: string, holders: nat, now: Instant)
    requires Sound(c) && (key in entries ==> GoodEntry(c, entries[key], holders)) && (key !in entries ==> holders == 0)
    requires key in entries ==> !Blocked(entries[key], now) && entries[key].inFlight < c.maxPerIdentity
    ensures GoodEntry(c, Started(entries, key, now), holders + 1)
  {
  }

  /** With a time-to-live of at least the longest backoff, pruning never forgets an entry in backoff. */
  lemma PruneKeepsBlocked(c: Config, e: Entry, holders: nat, now: Instant)
    requires Sound(c) && GoodEntry(c, e, holders) && c.entryTTL >= c.maxBackoff as int && Blocked(e, now)
    ensures !Expired(e, c.entryTTL, now)
  {
  }

  // ----- What an entry remembers ---------------------------------------------------------------------------

  /** What happened under one key since its entry was made: logins that began, and verdicts on logins. */
  datatype Mark = Began(at: Instant) | Over(success: bool, at: Instant)

  type History = map<string, seq<Mark>>

  /** The wrong passwords since the last right one. */
  ghost function FailuresIn(marks: seq<Mark>): nat {
    if marks == [] then 0
    else
      match marks[|marks| - 1]
      case Began(_) => FailuresIn(marks[..|marks| - 1])
      case Over(success, _) => if success then 0 else FailuresIn(marks[..|marks| - 1]) + 1
  }

  /** When the last of them was noticed. */
  ghost function LastFailure(marks: seq<Mark>): Instant {
    if marks == [] then NEVER
    else
      match marks[|marks| - 1]
      case Began(_) => LastFailure(marks[..|marks| - 1])
      case Over(success, at) => if success then NEVER else at
  }

  /** The logins that have begun and are not over. */
  ghost function OpenIn(marks: seq<Mark>): int {
    if marks == [] then 0
    else OpenIn(marks[..|marks| - 1]) + if marks[|marks| - 1].Began? then 1 else -1
  }

  /** When a key may be used again: `n` wrong passwords, if they are enough, bar it for the base time doubled
      once for each beyond the threshold, or for the longest time, from the last of them on. */
  ghost function BarredUntil(c: Config, marks: seq<Mark>): int {
    var n := FailuresIn(marks);
    if n < c.failureThreshold then NEVER
    else LastFailure(marks) + Min(c.maxBackoff as int, c.baseBackoff as int * Pow2(n - c.failureThreshold))
  }

  /** The entry says what happened since it was made, and nothing else. */
  ghost predicate Tells(c: Config, e: Entry, marks: seq<Mark>) {
    && marks != [] && e.failures == FailuresIn(marks) && e.inFlight == OpenIn(marks)
    && e.nextAllowed == BarredUntil(c, marks) && e.lastSeen == marks[|marks| - 1].at
  }

  ghost predicate Recorded(c: Config, entries: Table, history: History) {
    entries.Keys == history.Keys && forall k | k in entries :: Tells(c, entries[k], history[k])
  }

  /** The history when entries have been dropped. */
  ghost function Forgotten(history: History, kept: set<string>): History {
    map k | k in history && k in kept :: history[k]
  }

  /** The history when a login has begun under the keys. */
  ghost function WithBegin(history: History, keys: seq<string>, now: Instant): History {
    map k | k in history.Keys + (set x | x in keys) ::
      if k !in keys then history[k] else (if k in history then history[k] else []) + [Began(now)]
  }

  /** The history when the verdict on a login under the keys is known. */
  ghost function WithVerdict(history: History, keys: seq<string>, success: bool, now: Instant): History {
    map k | k in history :: if k in keys then history[k] + [Over(success, now)] else history[k]
  }

  /** Recording a verdict keeps the entry true to its history. */
  lemma FinishedTells(c: Config, e: Entry, marks: seq<Mark>, success: bool, now: Instant)
    requires Sound(c) && Tells(c, e, marks) && e.inFlight > 0
    ensures Tells(c, Finished(c, e, success, now), marks + [Over(success, now)])
  {
    var more := marks + [Over(success, now)];
    assert more[..|more| - 1] == marks;
    BackoffMonotone(c, e.failures + 1, e.failures + 1);
  }

  /** So does the beginning of a login, under a new entry or a known one. */
  lemma StartedTells(c: Config, entries: Table, history: History, key: string, now: Instant)
    requires Sound(c) && Recorded(c, entries, history)
    ensures Tells(c, Started(entries, key, now), (if key in history then history[key] else []) + [Began(now)])
  {
    var marks := if key in history then history[key] else [];
    var more := marks + [Began(now)];
    assert more[..|more| - 1] == marks;
  }

  lemma AdmittedTells(c: Config, entries: Table, history: History, keys: seq<string>, now: Instant)
    requires Sound(c) && Recorded(c, entries, history)
    ensures Recorded(c, Admitted(entries, keys, now), WithBegin(history, keys, now))
  {
    hide Tells, Started;
    forall k | k in Admitted(entries, keys, now)
      ensures Tells(c, Admitted(entries, keys, now)[k], WithBegin(history, keys, now)[k])
    {
      StartedTells(c, entries, history, k, now);
    }
  }

  lemma ReleasedTells(c: Config, entries: Table, history: History, keys: seq<string>, success: bool, now: Instant)
    requires Sound(c) && Recorded(c, entries, history)
    requires forall k | k in keys && k in entries :: entries[k].inFlight > 0
    ensures Recorded(c, Released(c, entries, keys, success, now), WithVerdict(history, keys, success, now))
  {
    hide Tells, Finished;
    forall k | k in entries
      ensures Tells(c, Released(c, entries, keys, success, now)[k], WithVerdict(history, keys, success, now)[k])
    {
      if k in keys {
        FinishedTells(c, entries[k], history[k], success, now);
      }
    }
  }

  lemma ForgottenTells(c: Config, entries: Table, kept: Table, history: History)
    requires Recorded(c, entries, history)
    requires kept.Keys <= entries.Keys && forall k | k in kept :: kept[k] == entries[k]
    ensures Recorded(c, kept, Forgotten(history, kept.Keys))
    ensures kept == entries ==> Forgotten(history, kept.Keys) == history
  {
  }

  /** Pruning drops an entry if and only if no login is open under its key and nothing happened under it for the
      time-to-live. */
  lemma PrunedExactly(c: Config, entries: Table, history: History, key: string, now: Instant)
    requires Recorded(c, entries, history) && key in entries
    ensures key !in Pruned(entries, c.entryTTL, now) <==>
      OpenIn(history[key]) == 0 && now - history[key][|history[key]| - 1].at >= c.entryTTL
  {
    assert Tells(c, entries[key], history[key]);
  }

  /** After enough wrong passwords under a key in a row, every login with that key has to wait until the time the
      last of them bars it to, whatever other key it has and however little else is going on. */
  lemma BarredWaits(c: Config, entries: Table, history: History, keys: seq<string>, key: string, now: Instant)
    requires Sound(c) && Recorded(c, entries, history) && key in keys && key in entries
    requires FailuresIn(history[key]) >= c.failureThreshold && now < BarredUntil(c, history[key])
    ensures Wait(c, entries, keys, now) > 0
  {
    WaitZeroExactly(c, entries, keys, now);
    assert Blocked(entries[key], now);
  }

  /** A right password lifts the bar and starts the count again; one more wrong one at least doubles the time
      or reaches the longest. */
  lemma VerdictCounts(c: Config, marks: seq<Mark>, success: bool, now: Instant)
    requires Sound(c)
    ensures var more := marks + [Over(success, now)];
      && FailuresIn(more) == (if success then 0 else FailuresIn(marks) + 1)
      && (success ==> BarredUntil(c, more) == NEVER)
      && (!success && FailuresIn(more) >= c.failureThreshold ==>
            now < BarredUntil(c, more) <= now + c.maxBackoff as int)
      && (!success && FailuresIn(marks) >= c.failureThreshold && BarredUntil(c, more) < now + c.maxBackoff as int ==>
            BarredUntil(c, more) - now == 2 * (BarredUntil(c, marks) - LastFailure(marks)))
  {
    hide Pow2;
    var more := marks + [Over(success, now)];
    assert more[..|more| - 1] == marks;
    var n := FailuresIn(marks);
    if !success && n + 1 >= c.failureThreshold {
      ScaledMonotone(c.baseBackoff as int, 0, n + 1 - c.failureThreshold);
      ScaledDoubles(c.baseBackoff as int, n + 1 - c.failureThreshold);
      if n >= c.failureThreshold {
        ScaledDoubles(c.baseBackoff as int, n - c.failureThreshold);
        ScaledMonotone(c.baseBackoff as int, 0, n - c.failureThreshold);
      }
    }
  }

  // ----- The throttle and its attempts ---------------------------------------------------------------------

  /** A reserved slot. */
  class LoginAttempt {
    const throttle: Throttle
    const keys: seq<string>
    var done: bool

    constructor (throttle: Throttle, keys: seq<string>)
      ensures this.throttle == throttle && this.keys == keys && !done
    {
      this.throttle, this.keys, this.done := throttle, keys, false;
    }

    /** Release the slot and record the verdict; a second call changes nothing. */
    method Finish(success: bool, now: Instant)
      requires throttle.Valid() && this in throttle.issued
      modifies this, throttle
      ensures throttle.Valid() && done && throttle.issued == old(throttle.issued)
      ensures throttle.operations == old(throttle.operations)
      ensures old(done) ==> throttle.entries == old(throttle.entries)
                            && throttle.globalInFlight == old(throttle.globalInFlight)
                            && throttle.live == old(throttle.live) && throttle.history == old(throttle.history)
      ensures !old(done) ==> throttle.entries == Released(throttle.config, old(throttle.entries), keys, success, now)
                             && throttle.globalInFlight == old(throttle.globalInFlight) - 1
                             && throttle.live == old(throttle.live) - {this}
      ensures !old(done) ==> throttle.history == WithVerdict(old(throttle.history), keys, success, now)
    {
      hide GoodTable, Released, Distinct, Sound, Recorded;
      if done {
        return;
      }
      throttle.FinishKeepsTable(this, success, now);
      ReleasedTells(throttle.config, throttle.entries, throttle.history, keys, success, now);
      throttle.history := WithVerdict(throttle.history, keys, success, now);
      done := true;
      if throttle.globalInFlight > 0 {
        throttle.globalInFlight := throttle.globalInFlight - 1;
      }
      throttle.Release(keys, success, now);
      throttle.live := throttle.live - {this};
    }
  }

  /** The unfinished attempts that hold a key. */
  ghost function Holders(live: set<LoginAttempt>, key: string): set<LoginAttempt> {
    set a | a in live && key in a.keys
  }

  lemma HoldersWithout(live: set<LoginAttempt>, a: LoginAttempt, key: string)
    requires a in live
    ensures |Holders(live - {a}, key)| == |Holders(live, key)| - if key in a.keys then 1 else 0
    ensures key in a.keys ==> |Holders(live, key)| > 0
  {
    if key in a.keys {
      assert Holders(live, key) == Holders(live - {a}, key) + {a};
    } else {
      assert Holders(live, key) == Holders(live - {a}, key);
    }
  }

  lemma HoldersWith(live: set<LoginAttempt>, a: LoginAttempt, key: string)
    requires a !in live
    ensures |Holders(live + {a}, key)| == |Holders(live, key)| + if key in a.keys then 1 else 0
  {
    assert (live + {a}) - {a} == live;
    HoldersWithout(live + {a}, a, key);
  }

  /** Every entry matches its holders, and every held key has an entry. */
  ghost predicate GoodTable(c: Config, entries: Table, live: set<LoginAttempt>) {
    && "" !in entries && |entries| <= c.maxEntries
    && (forall k | k in entries :: GoodEntry(c, entries[k], |Holders(live, k)|))
    && (forall a | a in live :: HoldsEntries(entries, a))
  }

  ghost predicate HoldsEntries(entries: Table, a: LoginAttempt) {
    forall k | k in a.keys :: k in entries
  }

  /** The attempts a throttle has handed out, and those of them that are not finished. */
  ghost predicate AttemptsOf(t: Throttle, issued: set<LoginAttempt>, live: set<LoginAttempt>)
    reads issued
  {
    forall a | a in issued :: a.throttle == t && |a.keys| == 2 && Distinct(a.keys) && (a.done <==> a !in live)
  }

  lemma AttemptsWith(t: Throttle, issued: set<LoginAttempt>, live: set<LoginAttempt>, a: LoginAttempt)
    requires AttemptsOf(t, issued, live) && live <= issued && a !in issued
    requires a.throttle == t && |a.keys| == 2 && Distinct(a.keys) && !a.done
    ensures AttemptsOf(t, issued + {a}, live + {a})
  {
  }

  class Throttle {
    const config: Config
    const digest: string -> string
    var entries: Table
    var globalInFlight: int
    var operations: int
    /** Every attempt ever handed out, and those not finished yet. */
    ghost var issued: set<LoginAttempt>
    ghost var live: set<LoginAttempt>
    /** What happened under each key since its entry was made. */
    ghost var history: History

    ghost predicate Valid()
      reads this, issued
    {
      Consistent() && Recorded(config, entries, history)
    }

    /** All of it that does not speak of the history. */
    ghost predicate Consistent()
      reads this`entries, this`globalInFlight, this`issued, this`live, issued
    {
      && Sound(config) && live <= issued
      && AttemptsOf(this, issued, live)
      && globalInFlight == |live| <= config.maxConcurrent
      && GoodTable(config, entries, live)
    }

    constructor (config: Config, digest: string -> string)
      ensures Valid() && entries == map[] && globalInFlight == 0 && issued == {} && live == {}
      ensures this.config == WithDefaults(config) && this.digest == digest
    {
      this.config, this.digest := WithDefaults(config), digest;
      entries, globalInFlight, operations := map[], 0, 0;
      issued, live, history := {}, {}, map[];
    }

    lemma ConsistentParts()
      requires Consistent()
      ensures Sound(config) && GoodTable(config, entries, live)
    {
    }

    /** The counters of the table add up to twice the number of slots in use. */
    lemma SlotsConserved()
      requires Valid()
      ensures forall k | k in entries :: entries[k].inFlight == |Holders(live, k)|
      ensures InFlightOver(entries.Keys, live) == 2 * globalInFlight
    {
      forall a | a in live
        ensures |a.keys| == 2 && a.keys[0] != a.keys[1] && a.keys[0] in entries.Keys && a.keys[1] in entries.Keys
      {
        assert HoldsEntries(entries, a);
      }
      InFlightConserved(entries.Keys, live);
    }

    lemma FinishKeepsTable(a: LoginAttempt, success: bool, now: Instant)
      requires Valid() && a in live
      ensures GoodTable(config, Released(config, entries, a.keys, success, now), live - {a})
      ensures |live - {a}| == |live| - 1
      ensures forall k | k in a.keys && k in entries :: entries[k].inFlight > 0
    {
      var after := Released(config, entries, a.keys, success, now);
      assert after.Keys == entries.Keys;
      assert |after| == |after.Keys| == |entries.Keys|;
      forall k | k in after
        ensures GoodEntry(config, after[k], |Holders(live - {a}, k)|)
      {
        HoldersWithout(live, a, k);
        if k in a.keys {
          FinishedGood(config, entries[k], |Holders(live, k)|, success, now);
        }
      }
      forall b | b in live - {a} ensures HoldsEntries(after, b) {
        assert HoldsEntries(entries, b);
      }
    }

    /** The loop over the attempt's keys. */
    method Release(keys: seq<string>, success: bool, now: Instant)
      requires Sound(config) && Distinct(keys)
      modifies this`entries
      ensures entries == Released(config, old(entries), keys, success, now)
    {
      assert Released(config, entries, keys[..0], success, now) == entries;
      for i := 0 to |keys|
        invariant entries == Released(config, old(entries), keys[..i], success, now)
      {
        ReleasedMore(config, old(entries), keys, i, success, now);
        if keys[i] in entries {
          var entry := entries[keys[i]];
          if entry.inFlight > 0 {
            entry := entry.(inFlight := entry.inFlight - 1);
          }
          entry := entry.(lastSeen := now);
          if success {
            entry := entry.(failures := 0, nextAllowed := NEVER);
          } else {
            entry := entry.(failures := entry.failures + 1);
            if entry.failures >= config.failureThreshold {
              var delay := Backoff(config, entry.failures);
              BackoffMonotone(config, entry.failures, entry.failures);
              entry := entry.(nextAllowed := now + delay as int);
            }
          }
          entries := entries[keys[i] := entry];
        }
      }
      assert keys[..|keys|] == keys;
    }

    /** This is a 64th call, or the table is full. */
    ghost predicate SweepDue()
      reads this`operations, this`entries
    {
      (operations + 1) % 0x1_0000_0000_0000_0000 % 64 == 0 || |entries| >= config.maxEntries
    }

    /** The table `begin` works on: pruned when that is due. */
    ghost function Swept(now: Instant): Table
      reads this`operations, this`entries
    {
      if SweepDue() then Pruned(entries, config.entryTTL, now) else entries
    }

    /** Reserve a slot, or say how long to wait. `room` is the table just before the new attempt is
        entered. */
    method Begin(clientIP: string, username: string, now: Instant)
      returns (attempt: LoginAttempt?, retryAfter: int, ghost room: Table)
      requires Valid()
      modifies this
      ensures Valid()
      ensures attempt != null <==>
        && old(globalInFlight) < config.maxConcurrent
        && Wait(config, old(Swept(now)), KeysFor(clientIP, username, digest), now) == 0
        && |Pinned(old(Swept(now)), KeysFor(clientIP, username, digest))|
           + Missing(old(Swept(now)), KeysFor(clientIP, username, digest)) <= config.maxEntries
      ensures attempt == null ==>
        retryAfter == var wait := Wait(config, old(Swept(now)), KeysFor(clientIP, username, digest), now);
                      if old(globalInFlight) < config.maxConcurrent && wait > 0 then wait else config.busyRetry
      ensures EvictedInOrder(old(Swept(now)), room, KeysFor(clientIP, username, digest), now)
      ensures attempt == null ==>
        && retryAfter > 0 && entries == room && globalInFlight == old(globalInFlight)
        && live == old(live) && issued == old(issued) && history == Forgotten(old(history), room.Keys)
      ensures attempt != null ==>
        && retryAfter == 0 && fresh(attempt) && !attempt.done && attempt.throttle == this
        && attempt.keys == KeysFor(clientIP, username, digest)
        && entries == Admitted(room, attempt.keys, now) && globalInFlight == old(globalInFlight) + 1
        && live == old(live) + {attempt} && issued == old(issued) + {attempt}
        && history == WithBegin(Forgotten(old(history), room.Keys), attempt.keys, now)
      ensures operations == (old(operations) + 1) % 0x1_0000_0000_0000_0000
      ensures old(SweepDue()) ==>
        forall k | k in room :: room[k].inFlight != 0 || now - room[k].lastSeen < config.entryTTL
      ensures attempt != null && config.entryTTL >= config.maxBackoff as int ==>
        forall k | k in attempt.keys && k in old(history) :: BarredUntil(config, old(history)[k]) <= now
    {
      hide Recorded, KeysFor, Wait, WaitOn, Pinned, Missing, EvictedInOrder, Pruned, Admitted, GoodTable, BarredUntil,
           SweepDue, Consistent, WithBegin, Forgotten, Distinct;
      KeysDistinct(clientIP, username, digest);
      ConsistentParts();
      ghost var before, told, swept, were := entries, history, Swept(now), live;
      attempt, retryAfter, room := Admit(KeysFor(clientIP, username, digest), now);
      ForgetRoom(config, before, swept, room, KeysFor(clientIP, username, digest), told, now);
      FreshRoom(config, before, swept, room, KeysFor(clientIP, username, digest), now);
      if attempt == null {
        history := Forgotten(told, room.Keys);
      } else {
        NotBarred(config, before, swept, told, attempt.keys, were, now);
        AdmittedTells(config, room, Forgotten(told, room.Keys), attempt.keys, now);
        history := WithBegin(Forgotten(told, room.Keys), attempt.keys, now);
      }
    }

    /** The same without the history. */
    method Admit(keys: seq<string>, now: Instant)
      returns (attempt: LoginAttempt?, retryAfter: int, ghost room: Table)
      requires Consistent() && |keys| == 2 && Distinct(keys) && "" !in keys
      modifies this`entries, this`operations, this`globalInFlight, this`issued, this`live
      ensures Consistent()
      ensures attempt != null <==>
        && old(globalInFlight) < config.maxConcurrent && Wait(config, old(Swept(now)), keys, now) == 0
        && |Pinned(old(Swept(now)), keys)| + Missing(old(Swept(now)), keys) <= config.maxEntries
      ensures attempt == null ==>
        retryAfter == var wait := Wait(config, old(Swept(now)), keys, now);
                      if old(globalInFlight) < config.maxConcurrent && wait > 0 then wait else config.busyRetry
      ensures EvictedInOrder(old(Swept(now)), room, keys, now)
      ensures attempt == null ==> retryAfter > 0 && entries == room
                                  && globalInFlight == old(globalInFlight) && live == old(live) && issued == old(issued)
      ensures attempt != null ==>
        && retryAfter == 0 && fresh(attempt) && !attempt.done && attempt.throttle == this && attempt.keys == keys
        && entries == Admitted(room, keys, now) && globalInFlight == old(globalInFlight) + 1
        && live == old(live) + {attempt} && issued == old(issued) + {attempt}
      ensures operations == (old(operations) + 1) % 0x1_0000_0000_0000_0000
    {
      hide Wait, WaitOn, Pinned, Missing, EvictedInOrder, Pruned, Admitted, GoodTable;
      SweepTable(now);
      room := entries;
      NothingEvicted(entries, keys, now);
      if globalInFlight >= config.maxConcurrent {
        return null, config.busyRetry, room;
      }
      retryAfter := RetryAfter(keys, now);
      WaitZeroExactly(config, entries, keys, now);
      if retryAfter > 0 {
        return null, retryAfter, room;
      }
      attempt, room := Reserve(keys, now);
      retryAfter := if attempt == null then config.busyRetry else 0;
    }

    /** Count the call and prune when it is due. */
    method SweepTable(now: Instant)
      requires Consistent()
      modifies this`operations, this`entries
      ensures Consistent() && entries == old(Swept(now))
      ensures operations == (old(operations) + 1) % 0x1_0000_0000_0000_0000
    {
      hide GoodTable, Pruned;
      PrunedGood(config, entries, live, now);
      operations := (operations + 1) % 0x1_0000_0000_0000_0000;
      if operations % 64 == 0 || |entries| >= config.maxEntries {
        entries := PruneExpired(entries, config.entryTTL, now);
      }
    }

    /** Make room and enter the attempt, once neither limit nor backoff stands in the way. */
    method Reserve(keys: seq<string>, now: Instant) returns (attempt: LoginAttempt?, ghost room: Table)
      requires Consistent() && |keys| == 2 && Distinct(keys) && "" !in keys
      requires globalInFlight < config.maxConcurrent && Wait(config, entries, keys, now) == 0
      modifies this`entries, this`globalInFlight, this`issued, this`live
      ensures Consistent()
      ensures attempt != null <==> |Pinned(old(entries), keys)| + Missing(old(entries), keys) <= config.maxEntries
      ensures EvictedInOrder(old(entries), room, keys, now)
      ensures attempt == null ==> entries == room
                                  && globalInFlight == old(globalInFlight) && live == old(live) && issued == old(issued)
      ensures attempt != null ==>
        && fresh(attempt) && !attempt.done && attempt.throttle == this && attempt.keys == keys
        && entries == Admitted(room, keys, now) && globalInFlight == old(globalInFlight) + 1
        && live == old(live) + {attempt} && issued == old(issued) + {attempt}
    {
      hide Wait, WaitOn, Pinned, Missing, EvictedInOrder, Admitted, GoodTable, HoldsEntries, Holders;
      GoodHasNoEmptyKey(config, entries, live);
      WaitZeroExactly(config, entries, keys, now);
      var missing := CountMissing(entries, keys);
      ghost var swept := entries;
      var ok, kept := EnsureCapacity(entries, missing, keys, now, config.maxEntries);
      EvictedGood(config, swept, kept, keys, live, now);
      entries, room := kept, kept;
      if !ok {
        return null, room;
      }
      attempt := Enter(keys, now);
    }

    /** Enter a new attempt under its keys. */
    method Enter(keys: seq<string>, now: Instant) returns (attempt: LoginAttempt)
      requires Consistent() && |keys| == 2 && Distinct(keys) && "" !in keys
      requires globalInFlight < config.maxConcurrent && |entries| + Missing(entries, keys) <= config.maxEntries
      requires Free(config, entries, keys, now)
      modifies this`entries, this`globalInFlight, this`issued, this`live
      ensures Consistent()
      ensures fresh(attempt) && !attempt.done && attempt.throttle == this && attempt.keys == keys
      ensures entries == Admitted(old(entries), keys, now) && globalInFlight == old(globalInFlight) + 1
      ensures live == old(live) + {attempt} && issued == old(issued) + {attempt}
    {
      hide Missing, Admitted, GoodTable, Free, Distinct, Sound, Holders, HoldsEntries, Started, GoodEntry, AttemptsOf;
      var started := StartAll(entries, keys, now);
      attempt := new LoginAttempt(this, keys);
      AttemptsWith(this, issued, live, attempt);
      AdmittedGood(config, entries, keys, live, attempt, now);
      entries, globalInFlight := started, globalInFlight + 1;
      issued, live := issued + {attempt}, live + {attempt};
    }

    /** The loop that looks for the longest wait. */
    method RetryAfter(keys: seq<string>, now: Instant) returns (retryAfter: int)
      ensures retryAfter == Wait(config, entries, keys, now)
    {
      retryAfter := 0;
      for i := 0 to |keys|
        invariant retryAfter == Wait(config, entries, keys[..i], now)
      {
        assert keys[..i + 1][..i] == keys[..i];
        if keys[i] in entries {
          var entry := entries[keys[i]];
          if entry.nextAllowed - now > retryAfter {
            retryAfter := entry.nextAllowed - now;
          }
          if entry.inFlight >= config.maxPerIdentity && config.busyRetry > retryAfter {
            retryAfter := config.busyRetry;
          }
        }
      }
      assert keys[..|keys|] == keys;
    }
  }

  predicate Distinct(keys: seq<string>) { forall i, j | 0 <= i < j < |keys| :: keys[i] != keys[j] }

  lemma ReleasedMore(c: Config, entries: Table, keys: seq<string>, i: nat, success: bool, now: Instant)
    requires Distinct(keys) && i < |keys|
    ensures Released(c, entries, keys[..i + 1], success, now)
         == var so := Released(c, entries, keys[..i], success, now);
            if keys[i] in so then so[keys[i] := Finished(c, so[keys[i]], success, now)] else so
  {
    var so := Released(c, entries, keys[..i], success, now);
    assert keys[..i + 1] == keys[..i] + [keys[i]];
    assert keys[i] !in keys[..i];
    assert keys[i] in so ==> so[keys[i]] == entries[keys[i]];
  }

  /** How many of the keys have no entry yet. */
  function Missing(entries: Table, keys: seq<string>): nat {
    |set k | k in keys && k !in entries|
  }

  method CountMissing(entries: Table, keys: seq<string>) returns (missing: nat)
    requires Distinct(keys)
    ensures missing == Missing(entries, keys)
  {
    missing := 0;
    for i := 0 to |keys|
      invariant missing == Missing(entries, keys[..i])
    {
      MissingMore(entries, keys, i);
      if keys[i] !in entries {
        missing := missing + 1;
      }
    }
    assert keys[..|keys|] == keys;
  }

  lemma MissingMore(entries: Table, keys: seq<string>, i: nat)
    requires Distinct(keys) && i < |keys|
    ensures Missing(entries, keys[..i + 1]) == Missing(entries, keys[..i]) + if keys[i] in entries then 0 else 1
  {
    var so, more := set k | k in keys[..i] && k !in entries, set k | k in keys[..i + 1] && k !in entries;
    assert keys[..i + 1] == keys[..i] + [keys[i]];
    if keys[i] in entries {
      assert more == so;
    } else {
      assert keys[i] !in so && more == so + {keys[i]};
    }
  }

  /** The loop that enters the attempt under each key. */
  method StartAll(entries: Table, keys: seq<string>, now: Instant) returns (started: Table)
    requires Distinct(keys)
    ensures started == Admitted(entries, keys, now)
  {
    started := entries;
    for i := 0 to |keys|
      invariant started == Admitted(entries, keys[..i], now)
    {
      AdmittedMore(entries, keys, i, now);
      var entry := if keys[i] in started then started[keys[i]] else Entry(0, 0, NEVER, NEVER);
      started := started[keys[i] := entry.(inFlight := entry.inFlight + 1, lastSeen := now)];
    }
    assert keys[..|keys|] == keys;
  }

  lemma AdmittedMore(entries: Table, keys: seq<string>, i: nat, now: Instant)
    requires Distinct(keys) && i < |keys|
    ensures Admitted(entries, keys[..i + 1], now)
         == Admitted(entries, keys[..i], now)[keys[i] := Started(entries, keys[i], now)]
    ensures keys[i] in Admitted(entries, keys[..i], now) <==> keys[i] in entries
    ensures keys[i] in entries ==> Admitted(entries, keys[..i], now)[keys[i]] == entries[keys[i]]
  {
    assert keys[..i + 1] == keys[..i] + [keys[i]];
    assert keys[i] !in keys[..i];
  }

  /** Dropping idle entries keeps the table consistent. */
  lemma SubtableGood(c: Config, entries: Table, sub: Table, live: set<LoginAttempt>)
    requires GoodTable(c, entries, live) && sub.Keys <= entries.Keys && forall k | k in sub :: sub[k] == entries[k]
    requires forall k | k in entries && k !in sub :: entries[k].inFlight <= 0
    ensures GoodTable(c, sub, live)
  {
    SubsetSize(sub.Keys, entries.Keys);
    assert |sub| == |sub.Keys| && |entries| == |entries.Keys|;
    forall a | a in live
      ensures HoldsEntries(sub, a)
    {
      assert HoldsEntries(entries, a);
      forall k | k in a.keys
        ensures k in sub
      {
        assert a in Holders(live, k);
        assert GoodEntry(c, entries[k], |Holders(live, k)|);
      }
    }
  }

  lemma PrunedGood(c: Config, entries: Table, live: set<LoginAttempt>, now: Instant)
    requires GoodTable(c, entries, live)
    ensures GoodTable(c, Pruned(entries, c.entryTTL, now), live)
  {
    SubtableGood(c, entries, Pruned(entries, c.entryTTL, now), live);
  }

  lemma EvictedGood(c: Config, entries: Table, kept: Table, keys: seq<string>, live: set<LoginAttempt>, now: Instant)
    requires GoodTable(c, entries, live) && EvictedInOrder(entries, kept, keys, now)
    ensures GoodTable(c, kept, live)
    ensures forall k | k in keys && k in kept :: k in entries && kept[k] == entries[k]
    ensures Missing(kept, keys) == Missing(entries, keys)
  {
    SubtableGood(c, entries, kept, live);
    assert (set k | k in keys && k !in kept) == (set k | k in keys && k !in entries);
  }

  lemma GoodHasNoEmptyKey(c: Config, entries: Table, live: set<LoginAttempt>)
    requires GoodTable(c, entries, live)
    ensures "" !in entries
  {
  }

  lemma KeysDistinct(clientIP: string, username: string, digest: string -> string)
    ensures |KeysFor(clientIP, username, digest)| == 2 && Distinct(KeysFor(clientIP, username, digest))
    ensures "" !in KeysFor(clientIP, username, digest)
  {
  }

  lemma SweptKeepsBlocked(c: Config, entries: Table, swept: Table, live: set<LoginAttempt>, now: Instant)
    requires Sound(c) && GoodTable(c, entries, live) && c.entryTTL >= c.maxBackoff as int
    requires swept == entries || swept == Pruned(entries, c.entryTTL, now)
    ensures forall k | k in entries && Blocked(entries[k], now) :: k in swept && swept[k] == entries[k]
  {
    forall k | k in entries && Blocked(entries[k], now)
      ensures k in swept && swept[k] == entries[k]
    {
      PruneKeepsBlocked(c, entries[k], |Holders(live, k)|, now);
    }
  }

  /** Whoever is admitted is not barred, if pruning never forgets an entry in backoff. */
  lemma NotBarred(c: Config, before: Table, swept: Table, history: History, keys: seq<string>, live: set<LoginAttempt>,
                  now: Instant)
    requires Sound(c) && GoodTable(c, before, live)
    requires swept == before || swept == Pruned(before, c.entryTTL, now)
    requires Recorded(c, before, history) && Wait(c, swept, keys, now) == 0
    ensures c.entryTTL >= c.maxBackoff as int ==>
              forall k | k in keys && k in history :: BarredUntil(c, history[k]) <= now
  {
    hide Pruned, GoodTable;
    if c.entryTTL >= c.maxBackoff as int {
      SweptKeepsBlocked(c, before, swept, live, now);
      WaitZeroExactly(c, swept, keys, now);
      forall k | k in keys && k in history ensures BarredUntil(c, history[k]) <= now {
        assert Tells(c, before[k], history[k]);
      }
    }
  }

  /** The table after pruning and eviction is a part of the one before, and so is its history. */
  lemma ForgetRoom(c: Config, before: Table, swept: Table, room: Table, keys: seq<string>, history: History,
                   now: Instant)
    requires Recorded(c, before, history) && EvictedInOrder(swept, room, keys, now)
    requires swept == before || swept == Pruned(before, c.entryTTL, now)
    ensures Recorded(c, room, Forgotten(history, room.Keys))
  {
    ForgottenTells(c, before, room, history);
  }

  /** After pruning, what is left was in use lately. */
  lemma FreshRoom(c: Config, before: Table, swept: Table, room: Table, keys: seq<string>, now: Instant)
    requires EvictedInOrder(swept, room, keys, now)
    ensures swept == Pruned(before, c.entryTTL, now) ==>
              forall k | k in room :: room[k].inFlight != 0 || now - room[k].lastSeen < c.entryTTL
  {
  }

  lemma AdmittedSize(entries: Table, keys: seq<string>, now: Instant)
    ensures |Admitted(entries, keys, now)| == |entries| + Missing(entries, keys)
  {
    var after, added := Admitted(entries, keys, now), set k | k in keys && k !in entries;
    assert after.Keys == entries.Keys + added;
    assert |after.Keys| == |entries.Keys| + |added|;
    assert |after| == |after.Keys| && |entries| == |entries.Keys|;
  }

  lemma AdmittedEntryGood(c: Config, room: Table, keys: seq<string>, live: set<LoginAttempt>, a: LoginAttempt,
                          now: Instant, k: string)
    requires Sound(c) && GoodTable(c, room, live) && a !in live && a.keys == keys
    requires k in keys && k in room ==> !Blocked(room[k], now) && room[k].inFlight < c.maxPerIdentity
    requires k in keys || k in room
    ensures GoodEntry(c, Admitted(room, keys, now)[k], |Holders(live + {a}, k)|)
  {
    HoldersWith(live, a, k);
    if k in keys {
      if k !in room {
        NoHolders(room, live, k);
      }
      StartedGood(c, room, k, |Holders(live, k)|, now);
    }
  }

  lemma AdmittedGood(c: Config, room: Table, keys: seq<string>, live: set<LoginAttempt>, a: LoginAttempt, now: Instant)
    requires Sound(c) && GoodTable(c, room, live) && a !in live && a.keys == keys && "" !in keys
    requires Free(c, room, keys, now)
    requires |room| + Missing(room, keys) <= c.maxEntries
    ensures GoodTable(c, Admitted(room, keys, now), live + {a})
    ensures |live + {a}| == |live| + 1
  {
    hide Holders, Missing, Blocked, Started, GoodEntry;
    var after := Admitted(room, keys, now);
    AdmittedSize(room, keys, now);
    forall k | k in after
      ensures GoodEntry(c, after[k], |Holders(live + {a}, k)|)
    {
      AdmittedEntryGood(c, room, keys, live, a, now, k);
    }
    forall b | b in live + {a} ensures HoldsEntries(after, b) {
      assert b in live ==> HoldsEntries(room, b);
    }
  }

  lemma NoHolders(entries: Table, live: set<LoginAttempt>, key: string)
    requires key !in entries && forall a | a in live :: HoldsEntries(entries, a)
    ensures |Holders(live, key)| == 0
  {
    assert Holders(live, key) == {};
  }

  // ----- Conservation -----------------------------------------------------------------------------------------

  /** The sum of the in-flight counters over a set of keys. */
  ghost function InFlightOver(keys: set<string>, live: set<LoginAttempt>): nat {
    if keys == {} then 0
    else
      var k :| k in keys;
      |Holders(live, k)| + InFlightOver(keys - {k}, live)
  }

  lemma {:induction false} InFlightSplit(keys: set<string>, live: set<LoginAttempt>, key: string)
    requires key in keys
    ensures InFlightOver(keys, live) == |Holders(live, key)| + InFlightOver(keys - {key}, live)
    decreases keys
  {
    var k :| k in keys && InFlightOver(keys, live) == |Holders(live, k)| + InFlightOver(keys - {k}, live);
    if k != key {
      InFlightSplit(keys - {k}, live, key);
      InFlightSplit(keys - {key}, live, k);
      assert keys - {k} - {key} == keys - {key} - {k};
    }
  }

  lemma {:induction false} InFlightUntouched(keys: set<string>, live: set<LoginAttempt>, a: LoginAttempt)
    requires a in live && forall k | k in a.keys :: k !in keys
    ensures InFlightOver(keys, live) == InFlightOver(keys, live - {a})
    decreases keys
  {
    if keys != {} {
      var k :| k in keys && InFlightOver(keys, live) == |Holders(live, k)| + InFlightOver(keys - {k}, live);
      HoldersWithout(live, a, k);
      InFlightUntouched(keys - {k}, live, a);
      InFlightSplit(keys, live - {a}, k);
    }
  }

  lemma {:induction false} InFlightZero(keys: set<string>)
    ensures InFlightOver(keys, {}) == 0
    decreases keys
  {
    if keys != {} {
      var k :| k in keys && InFlightOver(keys, {}) == |Holders({}, k)| + InFlightOver(keys - {k}, {});
      InFlightZero(keys - {k});
      assert Holders({}, k) == {};
    }
  }

  /** Every unfinished attempt is counted exactly twice, once under its address and once under its
      account: the counters add up to twice the number of slots in use. */
  lemma {:induction false} InFlightConserved(keys: set<string>, live: set<LoginAttempt>)
    requires forall a | a in live :: |a.keys| == 2 && a.keys[0] != a.keys[1] && a.keys[0] in keys && a.keys[1] in keys
    ensures InFlightOver(keys, live) == 2 * |live|
    decreases |live|
  {
    if live == {} {
      InFlightZero(keys);
    } else {
      hide InFlightOver;
      var a :| a in live;
      InFlightConserved(keys, live - {a});
      InFlightWithout(keys, live, a);
      assert |live| == |live - {a}| + 1;
    }
  }

  lemma InFlightWithout(keys: set<string>, live: set<LoginAttempt>, a: LoginAttempt)
    requires a in live && |a.keys| == 2 && a.keys[0] != a.keys[1] && a.keys[0] in keys && a.keys[1] in keys
    ensures InFlightOver(keys, live) == InFlightOver(keys, live - {a}) + 2
  {
    hide InFlightOver, Holders;
    var rest, ip, account := live - {a}, a.keys[0], a.keys[1];
    InFlightSplit(keys, live, ip);
    InFlightSplit(keys - {ip}, live, account);
    InFlightSplit(keys, rest, ip);
    InFlightSplit(keys - {ip}, rest, account);
    InFlightUntouched(keys - {ip} - {account}, live, a);
    HoldersWithout(live, a, ip);
    HoldersWithout(live, a, account);
  }
}
