/** API key validation (`internal/service/apikey.go`): a cache with expiry in front of a scan of the
    active keys. bcrypt is an unconstrained relation; the clock and the store are the environment. */
module KeyCache {
  import opened Options

  type Id = nat

  /** A stored key, as far as validation looks at it. */
  datatype Key = Key(id: Id, org: Id, hash: string, active: bool)

  /** `expiresAt` is compared with the clock. `seen` is history: the rows read when the key was cached. */
  datatype Entry = Entry(key: Key, expiresAt: int, seen: seq<Key>)

  type Cache = map<string, Entry>

  /** `verify(plain, hash)` is `util.VerifyAPIKey`. */
  datatype Config = Config(ttl: int, verify: (string, string) -> bool)

  /** `NewAPIKeyService`: the cache lifetime in seconds. */
  function CacheTTL(configured: int): (ttl: int)
    ensures ttl > 0
    ensures ttl == if configured > 0 then configured else 300
  {
    if configured <= 0 then 300 else configured
  }

  // ---------------------------------------------------------------- the store

  /** `FindActive`: the rows are kept newest first. */
  function Active(rows: seq<Key>): seq<Key> {
    if rows == [] then []
    else (if rows[0].active then [rows[0]] else []) + Active(rows[1..])
  }

  lemma {:induction false} ActiveMembers(rows: seq<Key>, k: Key)
    ensures k in Active(rows) <==> k in rows && k.active
  {
    if rows != [] {
      ActiveMembers(rows[1..], k);
      assert k in rows <==> k == rows[0] || k in rows[1..];
    }
  }

  /** The uncached validation: the newest active key that the plain key verifies against. */
  function Scan(verify: (string, string) -> bool, plain: string, keys: seq<Key>): Option<Key> {
    if keys == [] then None
    else if verify(plain, keys[0].hash) then Some(keys[0])
    else Scan(verify, plain, keys[1..])
  }

  function Matching(verify: (string, string) -> bool, plain: string, keys: seq<Key>): seq<Key> {
    if keys == [] then []
    else (if verify(plain, keys[0].hash) then [keys[0]] else []) + Matching(verify, plain, keys[1..])
  }

  /** The scan depends only on the matching keys and their order, and its result is one of them. */
  lemma {:induction false} ScanIsFirstMatch(verify: (string, string) -> bool, plain: string, keys: seq<Key>)
    ensures var m := Matching(verify, plain, keys);
            Scan(verify, plain, keys) == if m == [] then None else Some(m[0])
    ensures Scan(verify, plain, keys).Some? ==>
              Scan(verify, plain, keys).value in keys && verify(plain, Scan(verify, plain, keys).value.hash)
  {
    if keys != [] {
      ScanIsFirstMatch(verify, plain, keys[1..]);
    }
  }

  /** The row is active and verifies. */
  predicate Accepts(verify: (string, string) -> bool, plain: string, k: Key) {
    k.active && verify(plain, k.hash)
  }

  /** The answer for these rows is the first, that is newest, active row that verifies, if there is one. */
  ghost predicate NewestMatch(verify: (string, string) -> bool, plain: string, rows: seq<Key>, answer: Option<Key>) {
    match answer
    case None => forall i :: 0 <= i < |rows| ==> !Accepts(verify, plain, rows[i])
    case Some(k) =>
      exists i :: 0 <= i < |rows| && rows[i] == k && Accepts(verify, plain, rows[i]) &&
        forall j :: 0 <= j < i ==> !Accepts(verify, plain, rows[j])
  }

  lemma {:induction false} ScanFindsNewest(verify: (string, string) -> bool, plain: string, rows: seq<Key>)
    ensures NewestMatch(verify, plain, rows, Scan(verify, plain, Active(rows)))
  {
    if rows != [] {
      var k, rest, answer := rows[0], rows[1..], Scan(verify, plain, Active(rows[1..]));
      ScanFindsNewest(verify, plain, rest);
      if Accepts(verify, plain, k) {
        assert Active(rows)[0] == k;
      } else {
        assert Scan(verify, plain, Active(rows)) == answer by {
          assert Active(rows) == (if k.active then [k] else []) + Active(rest);
          assert if k.active then Active(rows)[1..] == Active(rest) else Active(rows) == Active(rest);
        }
        assert forall i :: 0 <= i < |rest| ==> rest[i] == rows[i + 1];
        if answer.Some? {
          var i :| 0 <= i < |rest| && rest[i] == answer.value && Accepts(verify, plain, rest[i]) &&
            forall j :: 0 <= j < i ==> !Accepts(verify, plain, rest[j]);
          assert rows[i + 1] == answer.value;
          assert forall j :: 1 <= j < i + 1 ==> rows[j] == rest[j - 1];
        } else {
          assert forall i :: 1 <= i < |rows| ==> rows[i] == rest[i - 1];
        }
      }
    }
  }

  // ---------------------------------------------------------------- one validation

  function Lookup(cache: Cache, plain: string, now: int): Option<Key> {
    if plain in cache && now < cache[plain].expiresAt then Some(cache[plain].key) else None
  }

  function Store(cfg: Config, cache: Cache, plain: string, key: Key, seen: seq<Key>, now: int): Cache {
    cache[plain := Entry(key, now + cfg.ttl, seen)]
  }

  class APIKeyService {
    var keyCache: Cache
    const cfg: Config

    constructor (configuredTTL: int, verify: (string, string) -> bool)
      ensures keyCache == map[] && cfg == Config(CacheTTL(configuredTTL), verify)
    {
      keyCache := map[];
      cfg := Config(CacheTTL(configuredTTL), verify);
    }

    /** There is an entry for the key that has not expired. */
    predicate Fresh(plainKey: string, now: int)
      reads this
    {
      plainKey in keyCache && now < keyCache[plainKey].expiresAt
    }

    /** One call: the clock reads `checkTime` at the cache check and `storeTime` at the store; `found`
        is what `FindActive` answers, None standing for its error. */
    method ValidateKey(plainKey: string, checkTime: int, found: Option<seq<Key>>, storeTime: int)
      returns (result: Option<Key>)
      modifies this
      // a fresh entry answers, whatever the store would say
      ensures old(Fresh(plainKey, checkTime)) ==>
                result == Some(old(keyCache)[plainKey].key) && keyCache == old(keyCache)
      // otherwise the first key of the store that verifies, which is then kept for one lifetime
      ensures !old(Fresh(plainKey, checkTime)) && found.None? ==> result == None && keyCache == old(keyCache)
      ensures !old(Fresh(plainKey, checkTime)) && found.Some? && result.None? ==>
                keyCache == old(keyCache) &&
                forall i :: 0 <= i < |found.value| ==> !cfg.verify(plainKey, found.value[i].hash)
      ensures !old(Fresh(plainKey, checkTime)) && found.Some? && result.Some? ==>
                && keyCache == old(keyCache)[plainKey := Entry(result.value, storeTime + cfg.ttl, found.value)]
                && exists i :: 0 <= i < |found.value| && found.value[i] == result.value &&
                     cfg.verify(plainKey, found.value[i].hash) &&
                     forall j :: 0 <= j < i ==> !cfg.verify(plainKey, found.value[j].hash)
      // which is the step that interleaved calls are made of
      ensures result == match Lookup(old(keyCache), plainKey, checkTime)
                        case Some(key) => Some(key)
                        case None => if found.None? then None else Scan(cfg.verify, plainKey, found.value)
      ensures keyCache == if Lookup(old(keyCache), plainKey, checkTime).None? && result.Some?
                          then Store(cfg, old(keyCache), plainKey, result.value, found.value, storeTime)
                          else old(keyCache)
    {
      if plainKey in keyCache && checkTime < keyCache[plainKey].expiresAt {
        return Some(keyCache[plainKey].key);
      }
      if found.None? {
        return None;
      }
      var keys := found.value;
      for i := 0 to |keys|
        invariant keyCache == old(keyCache)
        invariant forall j :: 0 <= j < i ==> !cfg.verify(plainKey, keys[j].hash)
        invariant Scan(cfg.verify, plainKey, keys) == Scan(cfg.verify, plainKey, keys[i..])
      {
        var key := keys[i];
        if cfg.verify(plainKey, key.hash) {
          keyCache := keyCache[plainKey := Entry(key, storeTime + cfg.ttl, keys)];
          return Some(key);
        }
        assert keys[i..][1..] == keys[i + 1..];
      }
      return None;
    }

    /** After a call that found a key, another within the lifetime returns it whatever the store then
        answers, an error included. */
    method ValidateTwice(plainKey: string, checkTime: int, found: Option<seq<Key>>, storeTime: int,
                         checkTime2: int, found2: Option<seq<Key>>, storeTime2: int)
      returns (first: Option<Key>, second: Option<Key>)
      modifies this
      ensures !old(Fresh(plainKey, checkTime)) && first.Some? && checkTime2 < storeTime + cfg.ttl ==> second == first
    {
      first := ValidateKey(plainKey, checkTime, found, storeTime);
      second := ValidateKey(plainKey, checkTime2, found2, storeTime2);
    }
  }

  // ---------------------------------------------------------------- many validations, interleaved

  /** Where a call stands. `checkedAt` is the clock at its cache check, `readAt` at its store read. After a
      hit the call still writes the key's last use before it returns. */
  datatype Call =
    | Entered(plain: string)
    | Hit(plain: string, checkedAt: int, key: Key)
    | Missed(plain: string, checkedAt: int)
    | Read(plain: string, checkedAt: int, keys: seq<Key>, readAt: int)
    | Returned(plain: string, checkedAt: int, result: Option<Key>)

  datatype World = World(now: int, rows: seq<Key>, cache: Cache, calls: seq<Call>)

  datatype Move =
    | Enter(plain: string)
    | Check(call: nat)
    | FindActive(call: nat, failed: bool)
    | Finish(call: nat)
    | Return(call: nat)
    | Tick(to: int)
    | ChangeRows(rows: seq<Key>)

  predicate Enabled(w: World, m: Move) {
    match m
    case Enter(_) => true
    case Check(i) => i < |w.calls| && w.calls[i].Entered?
    case FindActive(i, _) => i < |w.calls| && w.calls[i].Missed?
    case Finish(i) => i < |w.calls| && w.calls[i].Read?
    case Return(i) => i < |w.calls| && w.calls[i].Hit?
    case Tick(to) => w.now <= to
    case ChangeRows(_) => true
  }

  function Next(cfg: Config, w: World, m: Move): World
    requires Enabled(w, m)
  {
    match m
    case Enter(plain) => w.(calls := w.calls + [Entered(plain)])
    case Check(i) =>
      var plain := w.calls[i].plain;
      var hit := Lookup(w.cache, plain, w.now);
      w.(calls := w.calls[i := if hit.Some? then Hit(plain, w.now, hit.value) else Missed(plain, w.now)])
    case FindActive(i, failed) =>
      var Missed(plain, checkedAt) := w.calls[i];
      w.(calls := w.calls[i := if failed then Returned(plain, checkedAt, None)
                               else Read(plain, checkedAt, Active(w.rows), w.now)])
    case Finish(i) =>
      var Read(plain, checkedAt, keys, _) := w.calls[i];
      var result := Scan(cfg.verify, plain, keys);
      w.(calls := w.calls[i := Returned(plain, checkedAt, result)],
         cache := if result.Some? then Store(cfg, w.cache, plain, result.value, keys, w.now) else w.cache)
    case Return(i) =>
      var Hit(plain, checkedAt, key) := w.calls[i];
      w.(calls := w.calls[i := Returned(plain, checkedAt, Some(key))])
    case Tick(to) => w.(now := to)
    case ChangeRows(rows) => w.(rows := rows)
  }

  ghost predicate IsPath(cfg: Config, run: seq<World>, moves: seq<Move>) {
    && |run| == |moves| + 1
    && forall k :: 0 <= k < |moves| ==> Enabled(run[k], moves[k]) && run[k + 1] == Next(cfg, run[k], moves[k])
  }

  ghost predicate IsRun(cfg: Config, run: seq<World>, moves: seq<Move>) {
    && IsPath(cfg, run, moves)
    && run[0].cache == map[] && run[0].calls == []
  }

  ghost predicate EntryInv(cfg: Config, plain: string, e: Entry, now: int) {
    && e.expiresAt <= now + cfg.ttl
    && Scan(cfg.verify, plain, e.seen) == Some(e.key)
    && (forall k :: k in e.seen ==> k.active)
  }

  ghost predicate CallInv(c: Call, now: int) {
    match c
    case Entered(_) => true
    case Hit(_, checkedAt, _) => checkedAt <= now
    case Missed(_, checkedAt) => checkedAt <= now
    case Read(_, checkedAt, keys, readAt) => checkedAt <= readAt <= now && forall k :: k in keys ==> k.active
    case Returned(_, checkedAt, _) => checkedAt <= now
  }

  ghost predicate Inv(cfg: Config, w: World) {
    && (forall p :: p in w.cache ==> EntryInv(cfg, p, w.cache[p], w.now))
    && (forall i :: 0 <= i < |w.calls| ==> CallInv(w.calls[i], w.now))
  }

  lemma StepKeepsInv(cfg: Config, w: World, m: Move)
    requires cfg.ttl > 0 && Inv(cfg, w) && Enabled(w, m)
    ensures Inv(cfg, Next(cfg, w, m))
  {
    if m.FindActive? {
      forall k | k in Active(w.rows) ensures k.active { ActiveMembers(w.rows, k); }
    }
  }

  lemma {:induction false} RunKeepsInv(cfg: Config, run: seq<World>, moves: seq<Move>, k: nat)
    requires cfg.ttl > 0 && IsRun(cfg, run, moves) && k < |run|
    ensures Inv(cfg, run[k])
  {
    if k > 0 {
      RunKeepsInv(cfg, run, moves, k - 1);
      StepKeepsInv(cfg, run[k - 1], moves[k - 1]);
    }
  }

  // ---------------------------------------------------------------- what a call answers

  /** The move is the end of a call that has scanned rows for `plain` and found a key. */
  predicate Caches(w: World, m: Move, w': World, plain: string) {
    && m.Finish? && m.call < |w.calls| && m.call < |w'.calls| && w.calls[m.call].Read? && w.calls[m.call].plain == plain
    && w'.calls[m.call].Returned? && w'.calls[m.call].result.Some?
  }

  lemma EntryStays(cfg: Config, w: World, m: Move, plain: string)
    requires Enabled(w, m) && !Caches(w, m, Next(cfg, w, m), plain)
    ensures (plain in Next(cfg, w, m).cache <==> plain in w.cache)
    ensures plain in w.cache ==> Next(cfg, w, m).cache[plain] == w.cache[plain]
  {
    hide Scan, Active;
  }

  lemma {:induction false} EntryKept(cfg: Config, run: seq<World>, moves: seq<Move>, j: nat, k: nat, plain: string)
    requires IsPath(cfg, run, moves) && j <= k < |run|
    requires forall m :: j <= m < k ==> !Caches(run[m], moves[m], run[m + 1], plain)
    ensures plain in run[k].cache <==> plain in run[j].cache
    ensures plain in run[j].cache ==> run[k].cache[plain] == run[j].cache[plain]
  {
    hide Next, Enabled, Caches;
    if j < k {
      EntryKept(cfg, run, moves, j, k - 1, plain);
      var m := k - 1;
      assert !Caches(run[m], moves[m], run[m + 1], plain);
      EntryStays(cfg, run[m], moves[m], plain);
    }
  }

  /** In every interleaving: after a call has found a key at time t, and until another call finds one for the
      same plain key, every check of that plain key hits and yields that key before t plus the cache lifetime,
      and misses from then on. */
  lemma HitsForOneLifetime(cfg: Config, run: seq<World>, moves: seq<Move>, k: nat, j: nat, plain: string)
    requires IsPath(cfg, run, moves) && k < j < |moves|
    requires Caches(run[k], moves[k], run[k + 1], plain)
    requires forall m :: k < m < j ==> !Caches(run[m], moves[m], run[m + 1], plain)
    requires moves[j].Check? && run[j].calls[moves[j].call].plain == plain
    ensures var now, found := run[j].now, run[k + 1].calls[moves[k].call].result.value;
            run[j + 1].calls[moves[j].call] ==
              if now < run[k].now + cfg.ttl then Hit(plain, now, found) else Missed(plain, now)
  {
    hide Scan, Active;
    EntryKept(cfg, run, moves, k + 1, j, plain);
  }

  /** And while no call has found a key for a plain key, every check of it misses. */
  lemma MissesBeforeAnyFind(cfg: Config, run: seq<World>, moves: seq<Move>, j: nat, plain: string)
    requires IsRun(cfg, run, moves) && j < |moves|
    requires forall m :: 0 <= m < j ==> !Caches(run[m], moves[m], run[m + 1], plain)
    requires moves[j].Check? && run[j].calls[moves[j].call].plain == plain
    ensures run[j + 1].calls[moves[j].call] == Missed(plain, run[j].now)
  {
    hide Scan, Active;
    EntryKept(cfg, run, moves, 0, j, plain);
  }

  lemma {:induction false} ReaderWaits(cfg: Config, run: seq<World>, moves: seq<Move>, k: nat, j: nat, i: nat)
    requires IsPath(cfg, run, moves) && k <= j < |run| && i < |run[k].calls|
    requires run[k].calls[i].Read? || run[k].calls[i].Returned?
    ensures i < |run[j].calls| && (run[j].calls[i] == run[k].calls[i] || run[j].calls[i].Returned?)
  {
    hide Scan, Active;
    if k < j {
      ReaderWaits(cfg, run, moves, k, j - 1, i);
    }
  }

  /** A read of the store can fail whenever it happens; its call then answers with no key and caches none. */
  lemma FailedReadAnswersNone(cfg: Config, w: World, i: nat)
    requires i < |w.calls| && w.calls[i].Missed?
    ensures var m, Missed(plain, checkedAt) := FindActive(i, true), w.calls[i];
            Enabled(w, m) && Next(cfg, w, m) == w.(calls := w.calls[i := Returned(plain, checkedAt, None)])
  {
  }

  /** A call that read the store answers with the newest active row of that moment that verifies, if there
      is one. */
  lemma AnswersNewestMatch(cfg: Config, run: seq<World>, moves: seq<Move>, k: nat, j: nat, i: nat)
    requires IsPath(cfg, run, moves) && k < j < |moves|
    requires moves[k] == FindActive(i, false) && moves[j] == Finish(i)
    ensures var before, after := run[k].calls[i], run[j + 1].calls[i];
            && after.Returned? && after.plain == before.plain && after.checkedAt == before.checkedAt
            && NewestMatch(cfg.verify, before.plain, run[k].rows, after.result)
  {
    hide Scan, Active, NewestMatch;
    ReaderWaits(cfg, run, moves, k + 1, j, i);
    ScanFindsNewest(cfg.verify, run[k].calls[i].plain, run[k].rows);
  }

  // ---------------------------------------------------------------- transparency

  /** In every reachable state a cached key verifies against its plain key and was active when read;
      and a hit agrees with a full scan of the rows of the moment, provided the active rows that match
      this plain key are the ones read then, in the same order. */
  lemma CacheIsTransparent(cfg: Config, run: seq<World>, moves: seq<Move>, k: nat, plain: string)
    requires cfg.ttl > 0 && IsRun(cfg, run, moves) && k < |run| && plain in run[k].cache
    ensures var e := run[k].cache[plain];
            && cfg.verify(plain, e.key.hash) && e.key.active && e.key in e.seen
            && (Matching(cfg.verify, plain, Active(run[k].rows)) == Matching(cfg.verify, plain, e.seen) ==>
                  Scan(cfg.verify, plain, Active(run[k].rows)) == Some(e.key))
  {
    RunKeepsInv(cfg, run, moves, k);
    var e := run[k].cache[plain];
    ScanIsFirstMatch(cfg.verify, plain, e.seen);
    ScanIsFirstMatch(cfg.verify, plain, Active(run[k].rows));
  }

  // ---------------------------------------------------------------- revocation

  predicate Offers(keys: seq<Key>, id: Id) {
    exists i :: 0 <= i < |keys| && keys[i].id == id
  }

  predicate Is(key: Option<Key>, id: Id) {
    key.Some? && key.value.id == id
  }

  /** No open call has read rows in which its scan will find the key. */
  predicate NoOpenReader(cfg: Config, w: World, id: Id) {
    forall i :: 0 <= i < |w.calls| && w.calls[i].Read? ==> !Is(Scan(cfg.verify, w.calls[i].plain, w.calls[i].keys), id)
  }

  /** A call has returned the key after checking the cache at or after `limit`. */
  predicate LateAcceptance(w: World, id: Id, limit: int) {
    exists i :: 0 <= i < |w.calls| && w.calls[i].Returned? && Is(w.calls[i].result, id) && w.calls[i].checkedAt >= limit
  }

  /** One way to go on from `w` without the key ever being active again. */
  ghost predicate Continues(cfg: Config, w: World, id: Id, run: seq<World>, moves: seq<Move>) {
    && IsPath(cfg, run, moves) && run[0] == w
    && forall k :: 0 <= k < |run| ==> !Offers(Active(run[k].rows), id)
  }

  /** However `w` goes on, the key is not accepted by a call that checks the cache a lifetime later. */
  ghost predicate BoundHolds(cfg: Config, w: World, id: Id) {
    forall run, moves, k :: Continues(cfg, w, id, run, moves) && 0 <= k < |run| ==>
      !LateAcceptance(run[k], id, w.now + cfg.ttl)
  }

  /** After `s` no cached copy of the key outlives `s + ttl`, no reader holds it, and every call that hit
      or returned it had checked the cache before `s + ttl`. */
  ghost predicate Fading(cfg: Config, w: World, id: Id, s: int) {
    && NoOpenReader(cfg, w, id)
    && (forall p :: p in w.cache && w.cache[p].key.id == id ==> w.cache[p].expiresAt <= s + cfg.ttl)
    && (forall i :: 0 <= i < |w.calls| && w.calls[i].Hit? && w.calls[i].key.id == id ==>
          w.calls[i].checkedAt < s + cfg.ttl)
    && !LateAcceptance(w, id, s + cfg.ttl)
  }

  lemma FadingStep(cfg: Config, w: World, m: Move, id: Id, s: int)
    requires Enabled(w, m) && Fading(cfg, w, id, s) && !Offers(Active(w.rows), id)
    ensures Fading(cfg, Next(cfg, w, m), id, s)
  {
    if m.FindActive? {
      var plain := w.calls[m.call].plain;
      ScanIsFirstMatch(cfg.verify, plain, Active(w.rows));
      assert !Is(Scan(cfg.verify, plain, Active(w.rows)), id);
    }
    var w' := Next(cfg, w, m);
    forall i | 0 <= i < |w'.calls| && w'.calls[i].Returned? && Is(w'.calls[i].result, id)
      ensures w'.calls[i].checkedAt < s + cfg.ttl
    {
      assert i < |w.calls| && w.calls[i].Returned? ==> w'.calls[i] == w.calls[i];
    }
  }

  lemma {:induction false} FadingPath(cfg: Config, w: World, id: Id, run: seq<World>, moves: seq<Move>, k: nat)
    requires Fading(cfg, w, id, w.now) && Continues(cfg, w, id, run, moves) && k < |run|
    ensures Fading(cfg, run[k], id, w.now)
  {
    hide Fading, Enabled, Next;
    if k > 0 {
      FadingPath(cfg, w, id, run, moves, k - 1);
      FadingStep(cfg, run[k - 1], moves[k - 1], id, w.now);
    }
  }

  /** A reader that will find a key stores it at `late`, and the next call hits the cache. */
  lemma LateHit(cfg: Config, w: World, i: nat, late: int) returns (run: seq<World>, moves: seq<Move>)
    requires cfg.ttl > 0 && late >= w.now && i < |w.calls| && w.calls[i].Read?
    requires Scan(cfg.verify, w.calls[i].plain, w.calls[i].keys).Some?
    ensures IsPath(cfg, run, moves) && |moves| == 5 && run[0] == w
    ensures forall k :: 0 <= k <= 5 ==> run[k].rows == w.rows
    ensures forall k :: 1 <= k <= 5 ==> run[k].now == late
    ensures var Read(plain, _, keys, _) := w.calls[i];
            && |run[5].calls| == |w.calls| + 1
            && run[5].calls[|w.calls|] == Returned(plain, late, Scan(cfg.verify, plain, keys))
  {
    var Read(plain, checkedAt, keys, _) := w.calls[i];
    var n, found := |w.calls|, Scan(cfg.verify, plain, keys);
    var w1 := Next(cfg, w, Tick(late));
    var w2 := Next(cfg, w1, Finish(i));
    var w3 := Next(cfg, w2, Enter(plain));
    var w4 := Next(cfg, w3, Check(n));
    assert Lookup(w3.cache, plain, late) == found;
    var w5 := Next(cfg, w4, Return(n));
    assert Enabled(w, Tick(late)) && Enabled(w1, Finish(i)) && Enabled(w2, Enter(plain));
    assert Enabled(w3, Check(n)) && Enabled(w4, Return(n));
    assert w5.calls[n] == Returned(plain, late, found) && |w5.calls| == n + 1;
    assert w1.now == w2.now == w3.now == w4.now == w5.now == late;
    assert w1.rows == w2.rows == w3.rows == w4.rows == w5.rows == w.rows;
    hide Next, Enabled;
    moves := [Tick(late), Finish(i), Enter(plain), Check(n), Return(n)];
    run := [w, w1, w2, w3, w4, w5];
  }

  /** The staleness bound, exactly. In any reachable state in which the key is not active, all ways of going
      on without reactivating it respect the bound of one cache lifetime from now if and only if no open
      call has read rows in which its scan will find the key. */
  lemma BoundIffNoOpenReader(cfg: Config, run: seq<World>, moves: seq<Move>, at: nat, id: Id)
    requires cfg.ttl > 0 && IsRun(cfg, run, moves) && at < |run|
    requires !Offers(Active(run[at].rows), id)
    ensures BoundHolds(cfg, run[at], id) <==> NoOpenReader(cfg, run[at], id)
  {
    var w := run[at];
    RunKeepsInv(cfg, run, moves, at);
    if NoOpenReader(cfg, w, id) {
      BoundFromNow(cfg, w, id);
    } else {
      var i :| 0 <= i < |w.calls| && w.calls[i].Read? && Is(Scan(cfg.verify, w.calls[i].plain, w.calls[i].keys), id);
      UnboundFromNow(cfg, w, i, id);
    }
  }

  lemma BoundFromNow(cfg: Config, w: World, id: Id)
    requires cfg.ttl > 0 && Inv(cfg, w) && NoOpenReader(cfg, w, id)
    ensures BoundHolds(cfg, w, id)
  {
    assert Fading(cfg, w, id, w.now);
    forall run, moves, k | Continues(cfg, w, id, run, moves) && 0 <= k < |run|
      ensures !LateAcceptance(run[k], id, w.now + cfg.ttl)
    {
      FadingPath(cfg, w, id, run, moves, k);
    }
  }

  lemma UnboundFromNow(cfg: Config, w: World, i: nat, id: Id)
    requires cfg.ttl > 0 && !Offers(Active(w.rows), id)
    requires i < |w.calls| && w.calls[i].Read? && Is(Scan(cfg.verify, w.calls[i].plain, w.calls[i].keys), id)
    ensures !BoundHolds(cfg, w, id)
  {
    hide Next, Enabled, Scan, Active, Offers;
    var run, moves := LateHit(cfg, w, i, w.now + cfg.ttl);
    assert Continues(cfg, w, id, run, moves);
    assert LateAcceptance(run[5], id, w.now + cfg.ttl);
  }

  /** A call that has hit the cache returns the key however late it goes on. */
  lemma HitReturnsLate(cfg: Config, w: World, i: nat, late: int) returns (run: seq<World>, moves: seq<Move>)
    requires i < |w.calls| && w.calls[i].Hit? && late >= w.now
    ensures IsPath(cfg, run, moves) && |moves| == 2 && run[0] == w
    ensures run[2].now == late && run[2].rows == w.rows && run[2].cache == w.cache
    ensures run[2].calls == w.calls[i := Returned(w.calls[i].plain, w.calls[i].checkedAt, Some(w.calls[i].key))]
  {
    moves := [Tick(late), Return(i)];
    var w1 := w.(now := late);
    run := [w, w1, Next(cfg, w1, Return(i))];
  }

  // ---------------------------------------------------------------- revoked at a time

  /** The key is not among the active rows at or after time `r`: revoked then, never reactivated. */
  ghost predicate RevokedFrom(run: seq<World>, id: Id, r: int) {
    forall k :: 0 <= k < |run| && run[k].now >= r ==> !Offers(Active(run[k].rows), id)
  }

  /** Every validation that read the store before `r` has finished. */
  predicate EarlyReadsDone(w: World, r: int) {
    forall i :: 0 <= i < |w.calls| && w.calls[i].Read? ==> w.calls[i].readAt >= r
  }

  /** Calls that read at or after `r` do not hold the key. */
  ghost predicate LateReadsClean(w: World, id: Id, r: int) {
    forall i :: 0 <= i < |w.calls| && w.calls[i].Read? && w.calls[i].readAt >= r ==> !Offers(w.calls[i].keys, id)
  }

  lemma {:induction false} LateReadsNeverOffer(cfg: Config, run: seq<World>, moves: seq<Move>, k: nat, id: Id, r: int)
    requires IsRun(cfg, run, moves) && k < |run| && RevokedFrom(run, id, r)
    ensures LateReadsClean(run[k], id, r)
  {
    if k > 0 {
      LateReadsNeverOffer(cfg, run, moves, k - 1, id, r);
      LateReadsStep(cfg, run[k - 1], moves[k - 1], id, r);
    }
  }

  lemma LateReadsStep(cfg: Config, w: World, m: Move, id: Id, r: int)
    requires Enabled(w, m) && LateReadsClean(w, id, r) && (w.now >= r ==> !Offers(Active(w.rows), id))
    ensures LateReadsClean(Next(cfg, w, m), id, r)
  {
    hide Offers, Active;
  }

  lemma {:induction false} ClockGrows(cfg: Config, run: seq<World>, moves: seq<Move>, j: nat, k: nat)
    requires IsRun(cfg, run, moves) && j <= k < |run|
    ensures run[j].now <= run[k].now
  {
    if j < k {
      ClockGrows(cfg, run, moves, j, k - 1);
    }
  }

  lemma DoneMeansNoReader(cfg: Config, run: seq<World>, moves: seq<Move>, at: nat, id: Id, r: int)
    requires IsRun(cfg, run, moves) && at < |run| && RevokedFrom(run, id, r) && EarlyReadsDone(run[at], r)
    ensures NoOpenReader(cfg, run[at], id)
  {
    LateReadsNeverOffer(cfg, run, moves, at, id, r);
    var w := run[at];
    forall i | 0 <= i < |w.calls| && w.calls[i].Read?
      ensures !Is(Scan(cfg.verify, w.calls[i].plain, w.calls[i].keys), id)
    {
      ScanIsFirstMatch(cfg.verify, w.calls[i].plain, w.calls[i].keys);
    }
  }

  /** So, if the key is revoked at `r` for good and, in some state of the run at time `s >= r`, every
      validation that read the store before `r` has finished, then no call whose cache check is at or after
      `s + ttl` ever returns that key, in any interleaving. */
  lemma RevocationBound(cfg: Config, run: seq<World>, moves: seq<Move>, at: nat, k: nat, id: Id, r: int)
    requires cfg.ttl > 0 && IsRun(cfg, run, moves) && at < |run| && k < |run|
    requires RevokedFrom(run, id, r) && r <= run[at].now && EarlyReadsDone(run[at], r)
    ensures !LateAcceptance(run[k], id, run[at].now + cfg.ttl)
  {
    hide Next, Enabled, Offers, Active, LateAcceptance, NoOpenReader, EarlyReadsDone;
    if at <= k {
      DoneMeansNoReader(cfg, run, moves, at, id, r);
      RunKeepsInv(cfg, run, moves, at);
      BoundFromNow(cfg, run[at], id);
      forall j | at <= j < |run| ensures !Offers(Active(run[j].rows), id) {
        ClockGrows(cfg, run, moves, at, j);
      }
      assert Continues(cfg, run[at], id, run[at..], moves[at..]);
      assert run[at..][k - at] == run[k];
    } else {
      RunKeepsInv(cfg, run, moves, k);
      ClockGrows(cfg, run, moves, k, at);
      NothingFromTheFuture(cfg, run[k], id, run[at].now + cfg.ttl);
    }
  }

  lemma NothingFromTheFuture(cfg: Config, w: World, id: Id, limit: int)
    requires Inv(cfg, w) && w.now < limit
    ensures !LateAcceptance(w, id, limit)
  {
  }

  /** A reader that took its snapshot just before `r`, when the rows are emptied. */
  lemma SlowReader(cfg: Config, plain: string, key: Key, r: int) returns (run: seq<World>, moves: seq<Move>)
    requires key.active
    ensures IsRun(cfg, run, moves) && |moves| == 4
    ensures run[4] == World(r - 1, [], map[], [Read(plain, r - 1, [key], r - 1)])
    ensures forall k :: 0 <= k <= 4 ==> run[k].now < r
  {
    assert Active([key]) == [key] by { assert [key][1..] == []; }
    hide Scan, Active;
    var w0 := World(r - 1, [key], map[], []);
    var w1 := w0.(calls := [Entered(plain)]);
    var w2 := w0.(calls := [Missed(plain, r - 1)]);
    var w3 := w0.(calls := [Read(plain, r - 1, [key], r - 1)]);
    var w4 := w3.(rows := []);
    assert Next(cfg, w0, Enter(plain)) == w1 && Next(cfg, w1, Check(0)) == w2;
    assert Next(cfg, w2, FindActive(0, false)) == w3 && Next(cfg, w3, ChangeRows([])) == w4;
    assert Enabled(w0, Enter(plain)) && Enabled(w1, Check(0)) && Enabled(w2, FindActive(0, false));
    assert Enabled(w3, ChangeRows([]));
    hide Next, Enabled;
    moves := [Enter(plain), Check(0), FindActive(0, false), ChangeRows([])];
    run := [w0, w1, w2, w3, w4];
  }

  /** Waiting for those readers is needed: with a slow reader a key revoked at `r` is still accepted from the
      cache at any later time. */
  lemma RevocationNeedsReadersDone(cfg: Config, plain: string, key: Key, r: int, late: int)
    returns (run: seq<World>, moves: seq<Move>)
    requires cfg.ttl > 0 && late >= r + cfg.ttl && key.active && cfg.verify(plain, key.hash)
    ensures IsRun(cfg, run, moves) && RevokedFrom(run, key.id, r)
    ensures LateAcceptance(run[|moves|], key.id, late)
  {
    var run1, moves1 := SlowReader(cfg, plain, key, r);
    assert Scan(cfg.verify, plain, [key]) == Some(key);
    hide Next, Enabled, Scan;
    var run2, moves2 := LateHit(cfg, run1[4], 0, late);
    run, moves := run1 + run2[1..], moves1 + moves2;
    forall k | 0 <= k < |moves|
      ensures Enabled(run[k], moves[k]) && run[k + 1] == Next(cfg, run[k], moves[k])
    {
      if k >= 4 {
        assert run[k] == run2[k - 4] && run[k + 1] == run2[k - 3] && moves[k] == moves2[k - 4];
      }
    }
    assert run[9] == run2[5] && run2[5].calls[1].Returned?;
    forall k | 0 <= k < |run| && run[k].now >= r ensures !Offers(Active(run[k].rows), key.id) {
      assert k > 4 && run[k] == run2[k - 4];
    }
  }
}
