/**
 The sliding-window rate limiter with least-recently-used eviction.
 Models src/mlat_reference/api/rate_limit.py, with exact real clock readings. One call is one
 step: the clock reading comes in as an argument, and the lock is not modelled.
 */
module RateLimit {
  import opened Wrappers
  import Grouping
  import Sorting

  /** The key that a client is counted under. */
  datatype Client = Client(key: string)

  /** A client and the times of its allowed requests, oldest first. */
  type Bucket = (Client, seq<real>)

  /** The ordered dictionary: the client that was seen longest ago comes first. */
  type Table = seq<Bucket>

  datatype Config = Config(limit: nat, window: nat, maxClients: nat) {
    predicate Valid() {
      limit >= 1 && window >= 1 && maxClients >= 1
    }
  }

  datatype Decision = Decision(allowed: bool, limit: nat, remaining: nat, resetAfter: int)

  // ----- one call ---------------------------------------------------------------------------

  /** `pop(key, deque())`: the bucket, and the table without it. */
  function BucketOf(table: Table, key: Client): seq<real> {
    var i := Grouping.Find(table, key);
    if i.Some? then table[i.value].1 else []
  }

  function Without(table: Table, key: Client): Table {
    var i := Grouping.Find(table, key);
    if i.Some? then table[..i.value] + table[i.value + 1..] else table
  }

  function Expire(bucket: seq<real>, cutoff: real): (rest: seq<real>)
    ensures |rest| <= |bucket| && rest == bucket[|bucket| - |rest|..]
  {
    if bucket != [] && bucket[0] <= cutoff then Expire(bucket[1..], cutoff) else bucket
  }

  /** A whole number of seconds on the clock. */
  function Seconds(n: int): real {
    n as real
  }

  function Ceil(x: real): int {
    -(-x).Floor
  }

  function ResetAfter(config: Config, first: real, now: real): (seconds: int)
    ensures seconds >= 1 && now + Seconds(seconds) >= first + Seconds(config.window)
  {
    var wait := Ceil(first + Seconds(config.window) - now);
    if wait < 1 then 1 else wait
  }

  /** `while len(buckets) > max_clients: popitem(last=False)` */
  function Evict(table: Table, maxClients: nat): Table {
    if |table| > maxClients then table[|table| - maxClients..] else table
  }

  function Consume(config: Config, table: Table, now: real, key: Client): (Table, Decision)
    requires config.Valid()
  {
    var bucket := Expire(BucketOf(table, key), now - Seconds(config.window));
    var others := Without(table, key);
    if |bucket| >= config.limit then
      (others + [(key, bucket)], Decision(false, config.limit, 0, ResetAfter(config, bucket[0], now)))
    else
      var fuller := bucket + [now];
      (Evict(others + [(key, fuller)], config.maxClients),
       Decision(true, config.limit, config.limit - |fuller|, ResetAfter(config, fuller[0], now)))
  }

  class SlidingWindowRateLimiter {
    const config: Config
    var buckets: Table

    constructor (config: Config)
      requires config.Valid()
      ensures this.config == config && buckets == []
    {
      this.config, this.buckets := config, [];
    }

    /** The constructor call of the source, which raises `ValueError` for a value below one. */
    static method Create(limit: int, window: int, maxClients: int) returns (r: Option<SlidingWindowRateLimiter>)
      ensures r.Some? <==> limit >= 1 && window >= 1 && maxClients >= 1
      ensures r.Some? ==> fresh(r.value) && r.value.config == Config(limit, window, maxClients) && r.value.buckets == []
    {
      if limit < 1 || window < 1 || maxClients < 1 {
        return None;
      }
      var limiter := new SlidingWindowRateLimiter(Config(limit, window, maxClients));
      r := Some(limiter);
    }

    /** `while bucket and bucket[0] <= cutoff: bucket.popleft()` */
    static method PopExpired(bucket: seq<real>, cutoff: real) returns (rest: seq<real>)
      ensures rest == Expire(bucket, cutoff)
    {
      rest := bucket;
      while rest != [] && rest[0] <= cutoff
        invariant Expire(rest, cutoff) == Expire(bucket, cutoff)
        decreases |rest|
      {
        rest := rest[1..];
      }
    }

    method PopOldest()
      requires config.maxClients >= 1
      modifies this
      ensures buckets == Evict(old(buckets), config.maxClients)
    {
      ghost var full := buckets;
      while |buckets| > config.maxClients
        invariant |buckets| <= |full| && buckets == full[|full| - |buckets|..]
        invariant |full| >= config.maxClients ==> |buckets| >= config.maxClients
        invariant |full| <= config.maxClients ==> buckets == full
      {
        buckets := buckets[1..];
      }
    }

    method ConsumeAt(now: real, key: Client) returns (decision: Decision)
      requires config.Valid()
      modifies this
      ensures (buckets, decision) == Consume(config, old(buckets), now, key)
    {
      hide Expire, Evict, Without, BucketOf, ResetAfter;
      var cutoff := now - Seconds(config.window);
      var bucket := BucketOf(buckets, key);
      buckets := Without(buckets, key);
      bucket := PopExpired(bucket, cutoff);
      if |bucket| >= config.limit {
        buckets := buckets + [(key, bucket)];
        decision := Decision(false, config.limit, 0, ResetAfter(config, bucket[0], now));
      } else {
        bucket := bucket + [now];
        buckets := buckets + [(key, bucket)];
        PopOldest();
        decision := Decision(true, config.limit, config.limit - |bucket|, ResetAfter(config, bucket[0], now));
      }
    }
  }

  // ----- runs -------------------------------------------------------------------------------

  /** A request: the clock reading and the client. */
  type Request = (real, Client)

  /** Every request is one call, and the clock does not go back. */
  ghost predicate IsRun(requests: seq<Request>) {
    forall i, j :: 0 <= i < j < |requests| ==> requests[i].0 <= requests[j].0
  }

  function TableAt(config: Config, requests: seq<Request>, n: nat): Table
    requires config.Valid() && n <= |requests|
  {
    if n == 0 then []
    else Consume(config, TableAt(config, requests, n - 1), requests[n - 1].0, requests[n - 1].1).0
  }

  function DecisionAt(config: Config, requests: seq<Request>, n: nat): Decision
    requires config.Valid() && n < |requests|
  {
    Consume(config, TableAt(config, requests, n), requests[n].0, requests[n].1).1
  }

  /** The allowed requests of a client since it last came into the table; none if it is not there. */
  function Stay(config: Config, requests: seq<Request>, n: nat, key: Client): seq<real>
    requires config.Valid() && n <= |requests|
  {
    if n == 0 || Grouping.Find(TableAt(config, requests, n), key).None? then []
    else if requests[n - 1].1 == key && DecisionAt(config, requests, n - 1).allowed then
      Stay(config, requests, n - 1, key) + [requests[n - 1].0]
    else Stay(config, requests, n - 1, key)
  }

  /** How many of the times lie in the window `(low, high]`. */
  function CountIn(times: seq<real>, low: real, high: real): (n: nat)
    ensures n <= |times|
  {
    if times == [] then 0
    else CountIn(times[..|times| - 1], low, high) + if low < times[|times| - 1] <= high then 1 else 0
  }

  // ----- the table --------------------------------------------------------------------------

  function Keys(table: Table): (keys: seq<Client>)
    ensures |keys| == |table|
    ensures forall i :: 0 <= i < |keys| ==> keys[i] == table[i].0
  {
    seq(|table|, i requires 0 <= i < |table| => table[i].0)
  }

  /** The clients of the first `n` requests, ordered by their latest one. */
  function Recent(requests: seq<Request>, n: nat): seq<Client>
    requires n <= |requests|
  {
    if n == 0 then [] else Removed(Recent(requests, n - 1), requests[n - 1].1) + [requests[n - 1].1]
  }

  function Removed(keys: seq<Client>, key: Client): seq<Client> {
    if keys == [] then []
    else if keys[0] == key then Removed(keys[1..], key)
    else [keys[0]] + Removed(keys[1..], key)
  }

  function LastOnes(keys: seq<Client>, m: nat): seq<Client> {
    if |keys| > m then keys[|keys| - m..] else keys
  }

  lemma {:induction false} RemovedFacts(keys: seq<Client>, key: Client)
    ensures key !in Removed(keys, key)
    ensures forall k :: k in Removed(keys, key) ==> k in keys
    ensures key !in keys ==> Removed(keys, key) == keys
    ensures |Removed(keys, key)| <= |keys|
  {
    if keys != [] {
      RemovedFacts(keys[1..], key);
      assert keys == [keys[0]] + keys[1..];
    }
  }

  lemma {:induction false} RemovedDistinct(keys: seq<Client>, key: Client)
    requires Sorting.NoDuplicates(keys)
    ensures Sorting.NoDuplicates(Removed(keys, key))
  {
    if keys != [] {
      var rest := Removed(keys[1..], key);
      RemovedDistinct(keys[1..], key);
      RemovedFacts(keys[1..], key);
      forall j | 0 <= j < |rest| ensures rest[j] != keys[0] {
        assert rest[j] in keys[1..];
      }
    }
  }

  lemma {:induction false} RemovedAppend(a: seq<Client>, b: seq<Client>, key: Client)
    ensures Removed(a + b, key) == Removed(a, key) + Removed(b, key)
  {
    if a == [] {
      assert a + b == b;
    } else {
      assert (a + b)[1..] == a[1..] + b;
      RemovedAppend(a[1..], b, key);
    }
  }

  lemma {:induction false} RemovedAt(keys: seq<Client>, i: nat)
    requires Sorting.NoDuplicates(keys) && i < |keys|
    ensures Removed(keys, keys[i]) == keys[..i] + keys[i + 1..]
  {
    assert keys == keys[..i] + ([keys[i]] + keys[i + 1..]);
    RemovedAppend(keys[..i], [keys[i]] + keys[i + 1..], keys[i]);
    RemovedAppend([keys[i]], keys[i + 1..], keys[i]);
    RemovedFacts(keys[..i], keys[i]);
    RemovedFacts(keys[i + 1..], keys[i]);
    assert Removed([keys[i]], keys[i]) == [];
  }

  lemma KeysOfCut(table: Table, i: nat)
    requires i < |table|
    ensures Keys(table[..i] + table[i + 1..]) == Keys(table)[..i] + Keys(table)[i + 1..]
  {
  }

  lemma KeysWithout(table: Table, key: Client)
    requires Sorting.NoDuplicates(Keys(table))
    ensures Keys(Without(table, key)) == Removed(Keys(table), key)
  {
    hide Sorting.NoDuplicates, Grouping.Find, Keys, Removed;
    var i := Grouping.Find(table, key);
    if i.Some? {
      RemovedAt(Keys(table), i.value);
      KeysOfCut(table, i.value);
    } else {
      assert key !in Keys(table);
      RemovedFacts(Keys(table), key);
    }
  }

  lemma {:induction false} RecentDistinct(requests: seq<Request>, n: nat)
    requires n <= |requests|
    ensures Sorting.NoDuplicates(Recent(requests, n))
  {
    if n > 0 {
      RecentDistinct(requests, n - 1);
      RemovedFacts(Recent(requests, n - 1), requests[n - 1].1);
      RemovedDistinct(Recent(requests, n - 1), requests[n - 1].1);
    }
  }

  lemma LastOnesAppend(x: seq<Client>, y: seq<Client>, m: nat)
    requires |y| >= m
    ensures LastOnes(x + y, m) == LastOnes(y, m)
  {
  }

  lemma RemovedOne(keys: seq<Client>, key: Client)
    requires Sorting.NoDuplicates(keys) && key in keys
    ensures |Removed(keys, key)| == |keys| - 1
  {
    var i :| 0 <= i < |keys| && keys[i] == key;
    RemovedAt(keys, i);
  }

  /** Removing a key and appending it, then keeping the last `m`, needs only the last `m` before. */
  lemma LastOnesStep(early: seq<Client>, late: seq<Client>, key: Client, m: nat)
    requires Sorting.NoDuplicates(early + late) && m > 0 && |late| == m
    ensures LastOnes(Removed(late, key) + [key], m) == LastOnes(Removed(early + late, key) + [key], m)
  {
    hide LastOnes, Removed;
    var y := Removed(late, key) + [key];
    RemovedAppend(early, late, key);
    assert Removed(early + late, key) + [key] == Removed(early, key) + y;
    RemovedFacts(late, key);
    if key in late {
      assert Sorting.NoDuplicates(late) by { SuffixDistinct(early, late); }
      RemovedOne(late, key);
    }
    LastOnesAppend(Removed(early, key), y, m);
  }

  lemma SuffixDistinct(early: seq<Client>, late: seq<Client>)
    requires Sorting.NoDuplicates(early + late)
    ensures Sorting.NoDuplicates(late)
  {
    forall i, j | 0 <= i < j < |late| ensures late[i] != late[j] {
      assert (early + late)[|early| + i] != (early + late)[|early| + j];
    }
  }

  lemma LastOnesRemoved(keys: seq<Client>, key: Client, m: nat)
    requires Sorting.NoDuplicates(keys) && m > 0
    ensures LastOnes(Removed(LastOnes(keys, m), key) + [key], m) == LastOnes(Removed(keys, key) + [key], m)
  {
    if |keys| > m {
      var cut := |keys| - m;
      assert keys == keys[..cut] + keys[cut..];
      LastOnesStep(keys[..cut], keys[cut..], key, m);
    }
  }

  lemma LastOnesDistinct(keys: seq<Client>, m: nat)
    requires Sorting.NoDuplicates(keys)
    ensures Sorting.NoDuplicates(LastOnes(keys, m)) && |LastOnes(keys, m)| <= m
  {
  }

  /** The keys after a call: the client moves to the end, and the oldest one may go. */
  lemma ConsumeKeys(config: Config, table: Table, now: real, key: Client)
    requires config.Valid() && Sorting.NoDuplicates(Keys(table)) && |table| <= config.maxClients
    ensures Keys(Consume(config, table, now, key).0)
            == LastOnes(Removed(Keys(table), key) + [key], config.maxClients)
  {
    hide Removed, Expire, Sorting.NoDuplicates;
    KeysWithout(table, key);
    var bucket := Expire(BucketOf(table, key), now - Seconds(config.window));
    var others := Without(table, key);
    if |bucket| >= config.limit {
      assert Grouping.Find(table, key).Some?;
      assert Keys(others + [(key, bucket)]) == Keys(others) + [key];
    } else {
      var full := others + [(key, bucket + [now])];
      assert Keys(full) == Keys(others) + [key];
      assert Keys(Evict(full, config.maxClients)) == LastOnes(Keys(full), config.maxClients);
    }
  }

  lemma TableStep(config: Config, table: Table, now: real, key: Client, recent: seq<Client>)
    requires config.Valid() && Sorting.NoDuplicates(recent)
    requires Keys(table) == LastOnes(recent, config.maxClients)
    ensures Keys(Consume(config, table, now, key).0) == LastOnes(Removed(recent, key) + [key], config.maxClients)
  {
    hide Consume, LastOnes, Removed, Sorting.NoDuplicates;
    LastOnesDistinct(recent, config.maxClients);
    ConsumeKeys(config, table, now, key);
    LastOnesRemoved(recent, key, config.maxClients);
  }

  lemma Unfolded(config: Config, requests: seq<Request>, n: nat)
    requires config.Valid() && 0 < n <= |requests|
    ensures TableAt(config, requests, n)
            == Consume(config, TableAt(config, requests, n - 1), requests[n - 1].0, requests[n - 1].1).0
    ensures Recent(requests, n) == Removed(Recent(requests, n - 1), requests[n - 1].1) + [requests[n - 1].1]
  {
  }

  /** The table holds exactly the `maxClients` most recently seen clients, in that order. */
  lemma {:induction false} TableIsMostRecent(config: Config, requests: seq<Request>, n: nat)
    requires config.Valid() && n <= |requests|
    ensures Keys(TableAt(config, requests, n)) == LastOnes(Recent(requests, n), config.maxClients)
  {
    hide Consume, Removed, Sorting.NoDuplicates;
    if n == 0 {
      assert Keys([]) == [];
    } else {
      hide LastOnes, Keys, TableAt, Recent;
      TableIsMostRecent(config, requests, n - 1);
      RecentDistinct(requests, n - 1);
      Unfolded(config, requests, n);
      TableStep(config, TableAt(config, requests, n - 1), requests[n - 1].0, requests[n - 1].1,
                Recent(requests, n - 1));
    }
  }

  lemma KeysDistinct(config: Config, requests: seq<Request>, n: nat)
    requires config.Valid() && n <= |requests|
    ensures Sorting.NoDuplicates(Keys(TableAt(config, requests, n)))
  {
    TableIsMostRecent(config, requests, n);
    RecentDistinct(requests, n);
  }

  // ----- windows ----------------------------------------------------------------------------

  /** Allowed times are ordered, and any `limit` of them in a row take at least one window. */
  ghost predicate Ordered(times: seq<real>) {
    forall i, j :: 0 <= i < j < |times| ==> times[i] <= times[j]
  }

  ghost predicate Spaced(config: Config, stay: seq<real>) {
    && Ordered(stay)
    && (forall i, j :: 0 <= i && j == i + config.limit && j < |stay| ==> stay[j] - stay[i] >= Seconds(config.window))
  }

  /** The bucket is the end of the stay; what is no longer in it left the window before `clock`. */
  ghost predicate StayInv(config: Config, stay: seq<real>, bucket: seq<real>, clock: real) {
    && Spaced(config, stay)
    && (forall i :: 0 <= i < |stay| ==> stay[i] <= clock)
    && |bucket| <= |stay| && bucket == stay[|stay| - |bucket|..]
    && (forall i :: 0 <= i < |stay| - |bucket| ==> stay[i] <= clock - Seconds(config.window))
    && |bucket| <= config.limit
  }

  /** `Expire` drops exactly the first `gone` times if the cutoff falls there. */
  lemma {:induction false} ExpireIs(bucket: seq<real>, cutoff: real, gone: nat)
    requires gone <= |bucket| && forall i :: 0 <= i < gone ==> bucket[i] <= cutoff
    requires gone < |bucket| ==> bucket[gone] > cutoff
    ensures Expire(bucket, cutoff) == bucket[gone..]
  {
    if gone > 0 {
      ExpireIs(bucket[1..], cutoff, gone - 1);
      assert bucket[1..][gone - 1..] == bucket[gone..];
    }
  }

  /** Where the cutoff falls in ordered times. */
  ghost function Fallen(times: seq<real>, cutoff: real): (n: nat)
    ensures n <= |times|
  {
    if times != [] && times[0] <= cutoff then 1 + Fallen(times[1..], cutoff) else 0
  }

  lemma {:induction false} FallenIs(times: seq<real>, cutoff: real, i: nat)
    requires Ordered(times) && i < |times|
    ensures i < Fallen(times, cutoff) <==> times[i] <= cutoff
  {
    if times[0] <= cutoff && i > 0 {
      assert times[1..][i - 1] == times[i];
      FallenIs(times[1..], cutoff, i - 1);
    }
  }

  lemma SpacedIsOrdered(config: Config, stay: seq<real>)
    requires Spaced(config, stay)
    ensures Ordered(stay)
  {
  }

  lemma StayCut(config: Config, stay: seq<real>, rest: seq<real>, now: real, cut: nat)
    requires Spaced(config, stay) && cut <= |stay| && rest == stay[cut..] && |rest| <= config.limit
    requires forall i :: 0 <= i < |stay| ==> stay[i] <= now
    requires forall i :: 0 <= i < |stay| ==> (i < cut <==> stay[i] <= now - Seconds(config.window))
    ensures StayInv(config, stay, rest, now)
  {
    hide Spaced;
  }

  lemma CutOf(stay: seq<real>, cutoff: real) returns (cut: nat)
    requires Ordered(stay)
    ensures cut <= |stay| && forall i :: 0 <= i < |stay| ==> (i < cut <==> stay[i] <= cutoff)
  {
    cut := Fallen(stay, cutoff);
    forall i | 0 <= i < |stay| ensures i < cut <==> stay[i] <= cutoff {
      FallenIs(stay, cutoff, i);
    }
  }

  /** Expiring a suffix of the stay cuts the stay. */
  lemma ExpireInStay(stay: seq<real>, bucket: seq<real>, cutoff: real, cut: nat)
    requires |bucket| <= |stay| && bucket == stay[|stay| - |bucket|..]
    requires |stay| - |bucket| <= cut <= |stay|
    requires forall i :: 0 <= i < |stay| ==> (i < cut <==> stay[i] <= cutoff)
    ensures Expire(bucket, cutoff) == stay[cut..]
  {
    hide Expire;
    var base := |stay| - |bucket|;
    forall i | 0 <= i < |bucket| ensures bucket[i] == stay[base + i] {
    }
    ExpireIs(bucket, cutoff, cut - base);
    SuffixOfSuffix(stay, base, cut);
  }

  lemma StayParts(config: Config, stay: seq<real>, bucket: seq<real>, clock: real)
    requires StayInv(config, stay, bucket, clock)
    ensures Spaced(config, stay) && |bucket| <= |stay| && bucket == stay[|stay| - |bucket|..]
    ensures |bucket| <= config.limit && forall i :: 0 <= i < |stay| ==> stay[i] <= clock
  {
    hide Spaced;
  }

  lemma StayExpiresAt(config: Config, stay: seq<real>, bucket: seq<real>, clock: real, now: real) returns (cut: nat)
    requires StayInv(config, stay, bucket, clock) && clock <= now
    ensures var rest := Expire(bucket, now - Seconds(config.window));
            StayInv(config, stay, rest, now) && |rest| + cut == |stay|
    ensures forall i :: cut <= i < |stay| ==> stay[i] > now - Seconds(config.window)
  {
    hide *;
    var cutoff := now - Seconds(config.window);
    StayParts(config, stay, bucket, clock);
    SpacedIsOrdered(config, stay);
    cut := CutOf(stay, cutoff);
    CutAfterBase(config, stay, bucket, clock, now, cut);
    ExpireInStay(stay, bucket, cutoff, cut);
    StayCut(config, stay, Expire(bucket, cutoff), now, cut);
  }

  /** Expiring at a later clock keeps the invariant and leaves exactly the current window. */
  lemma StayExpires(config: Config, stay: seq<real>, bucket: seq<real>, clock: real, now: real)
    requires StayInv(config, stay, bucket, clock) && clock <= now
    ensures StayInv(config, stay, Expire(bucket, now - Seconds(config.window)), now)
    ensures var rest := Expire(bucket, now - Seconds(config.window));
            forall i :: |stay| - |rest| <= i < |stay| ==> stay[i] > now - Seconds(config.window)
  {
    hide *;
    var cut := StayExpiresAt(config, stay, bucket, clock, now);
  }

  lemma SuffixOfSuffix(stay: seq<real>, base: nat, cut: nat)
    requires base <= cut <= |stay|
    ensures stay[base..][cut - base..] == stay[cut..]
  {
  }

  lemma CutAfterBase(config: Config, stay: seq<real>, bucket: seq<real>, clock: real, now: real, cut: nat)
    requires StayInv(config, stay, bucket, clock) && clock <= now
    requires cut <= |stay|
    requires forall i :: 0 <= i < |stay| ==> (i < cut <==> stay[i] <= now - Seconds(config.window))
    ensures var base := |stay| - |bucket|;
            && base <= cut
            && (forall i :: 0 <= i < cut - base ==> bucket[i] <= now - Seconds(config.window))
            && (cut - base < |bucket| ==> bucket[cut - base] > now - Seconds(config.window))
  {
    hide Spaced;
    var base := |stay| - |bucket|;
    if base > 0 {
      assert stay[base - 1] <= now - Seconds(config.window);
    }
    forall i | 0 <= i < |bucket| ensures bucket[i] == stay[base + i] {
    }
  }

  lemma SpacedAppend(config: Config, stay: seq<real>, now: real)
    requires config.Valid() && Spaced(config, stay) && forall i :: 0 <= i < |stay| ==> stay[i] <= now
    requires |stay| >= config.limit ==> stay[|stay| - config.limit] <= now - Seconds(config.window)
    ensures Spaced(config, stay + [now])
  {
    var longer := stay + [now];
    forall i, j | 0 <= i && j == i + config.limit && j < |longer|
      ensures longer[j] - longer[i] >= Seconds(config.window)
    {
      if j < |stay| {
        assert stay[j] - stay[i] >= Seconds(config.window);
      }
    }
  }

  lemma StayAllows(config: Config, stay: seq<real>, rest: seq<real>, now: real)
    requires config.Valid() && StayInv(config, stay, rest, now) && |rest| < config.limit
    ensures StayInv(config, stay + [now], rest + [now], now)
  {
    hide Spaced;
    SpacedAppend(config, stay, now);
  }

  // ----- the stay of a client along a run -----------------------------------------------------

  /** The time of the latest request, or of the next one if there was none. */
  ghost function ClockAt(requests: seq<Request>, n: nat): real
    requires n <= |requests| && requests != []
  {
    if n == 0 then requests[0].0 else requests[n - 1].0
  }

  lemma FindIs(table: Table, key: Client, i: nat)
    requires Sorting.NoDuplicates(Keys(table)) && i < |table| && table[i].0 == key
    ensures Grouping.Find(table, key) == Some(i)
  {
    var k := Grouping.Find(table, key);
    assert k.Some? && Keys(table)[k.value] == Keys(table)[i];
  }

  /** After a call, another client has its old bucket or is gone. */
  lemma OthersKept(config: Config, table: Table, now: real, key: Client, other: Client)
    requires config.Valid() && other != key && Sorting.NoDuplicates(Keys(table))
    requires Sorting.NoDuplicates(Keys(Consume(config, table, now, key).0))
    requires Grouping.Find(Consume(config, table, now, key).0, other).Some?
    ensures Grouping.Find(table, other).Some?
    ensures BucketOf(Consume(config, table, now, key).0, other) == BucketOf(table, other)
  {
    hide Grouping.Find, Expire, Sorting.NoDuplicates;
    var after := Consume(config, table, now, key).0;
    var i := Grouping.Find(after, other).value;
    assert after[i] in after && after[i].0 == other;
    AfterMembers(config, table, now, key, after[i]);
    var j :| 0 <= j < |table| && table[j] == after[i];
    FindIs(table, other, j);
  }

  lemma AfterMembers(config: Config, table: Table, now: real, key: Client, entry: Bucket)
    requires config.Valid() && entry.0 != key && entry in Consume(config, table, now, key).0
    ensures entry in table
  {
    hide Grouping.Find, Expire;
    var others := Without(table, key);
    var bucket := Expire(BucketOf(table, key), now - Seconds(config.window));
    var full := others + [(key, if |bucket| >= config.limit then bucket else bucket + [now])];
    var after := Consume(config, table, now, key).0;
    var i :| 0 <= i < |after| && after[i] == entry;
    assert after == full || after == full[|full| - config.maxClients..];
    assert entry in full;
    assert entry in others;
  }

  /** A call puts the client at the end of the table. */
  lemma CallerIsLast(config: Config, table: Table, now: real, key: Client)
    requires config.Valid()
    ensures var (after, decision) := Consume(config, table, now, key);
            var rest := Expire(BucketOf(table, key), now - Seconds(config.window));
            && after != []
            && after[|after| - 1] == (key, if decision.allowed then rest + [now] else rest)
            && (decision.allowed <==> |rest| < config.limit)
  {
    hide Grouping.Find, Expire, Without, ResetAfter, BucketOf, Seconds;
  }

  /** After a call, the client is at the end of the table with its expired or extended bucket. */
  lemma CallerKept(config: Config, table: Table, now: real, key: Client)
    requires config.Valid() && Sorting.NoDuplicates(Keys(Consume(config, table, now, key).0))
    ensures var (after, decision) := Consume(config, table, now, key);
            var rest := Expire(BucketOf(table, key), now - Seconds(config.window));
            && Grouping.Find(after, key).Some?
            && BucketOf(after, key) == (if decision.allowed then rest + [now] else rest)
            && (decision.allowed <==> |rest| < config.limit)
  {
    hide Consume, Grouping.Find, Expire, Seconds, Keys, Sorting.NoDuplicates;
    var after := Consume(config, table, now, key).0;
    CallerIsLast(config, table, now, key);
    FindIs(after, key, |after| - 1);
  }

  lemma ClockAdvances(requests: seq<Request>, n: nat)
    requires IsRun(requests) && n < |requests|
    ensures ClockAt(requests, n) <= requests[n].0 == ClockAt(requests, n + 1)
  {
  }

  lemma StayUnfolds(config: Config, requests: seq<Request>, n: nat, key: Client)
    requires config.Valid() && 0 < n <= |requests|
    ensures Stay(config, requests, n, key)
            == if Grouping.Find(TableAt(config, requests, n), key).None? then []
               else if requests[n - 1].1 == key && DecisionAt(config, requests, n - 1).allowed then
                 Stay(config, requests, n - 1, key) + [requests[n - 1].0]
               else Stay(config, requests, n - 1, key)
  {
  }

  lemma {:induction false} StayHolds(config: Config, requests: seq<Request>, n: nat, key: Client)
    requires config.Valid() && IsRun(requests) && n <= |requests| && requests != []
    ensures StayInv(config, Stay(config, requests, n, key), BucketOf(TableAt(config, requests, n), key),
                    ClockAt(requests, n))
  {
    hide Seconds, StayInv, IsRun, TableAt, Stay, BucketOf, ClockAt;
    if n == 0 {
      StartsEmpty(config, requests, key);
      EmptyStay(config, ClockAt(requests, 0));
    } else {
      StayHolds(config, requests, n - 1, key);
      StayStep(config, requests, n, key);
    }
  }

  /** What a request does to the bucket and to the stay of its own client. */
  lemma CallerBucket(config: Config, requests: seq<Request>, n: nat)
    requires config.Valid() && 0 < n <= |requests|
    requires Grouping.Find(TableAt(config, requests, n), requests[n - 1].1).Some?
    ensures var (now, key) := requests[n - 1];
            var stay := Stay(config, requests, n - 1, key);
            var rest := Expire(BucketOf(TableAt(config, requests, n - 1), key), now - Seconds(config.window));
            if |rest| < config.limit then
              BucketOf(TableAt(config, requests, n), key) == rest + [now] && Stay(config, requests, n, key) == stay + [now]
            else BucketOf(TableAt(config, requests, n), key) == rest && Stay(config, requests, n, key) == stay
  {
    hide *;
    var now, key := requests[n - 1].0, requests[n - 1].1;
    Unfolded(config, requests, n);
    KeysDistinct(config, requests, n);
    CallerKept(config, TableAt(config, requests, n - 1), now, key);
    StayUnfolds(config, requests, n, key);
    AllowedIs(config, requests, n - 1);
  }

  lemma StayOfCaller(config: Config, requests: seq<Request>, n: nat)
    requires config.Valid() && IsRun(requests) && 0 < n <= |requests|
    requires var key := requests[n - 1].1;
             && Grouping.Find(TableAt(config, requests, n), key).Some?
             && StayInv(config, Stay(config, requests, n - 1, key), BucketOf(TableAt(config, requests, n - 1), key),
                        ClockAt(requests, n - 1))
    ensures var key := requests[n - 1].1;
            StayInv(config, Stay(config, requests, n, key), BucketOf(TableAt(config, requests, n), key),
                    ClockAt(requests, n))
  {
    hide *;
    var now, key := requests[n - 1].0, requests[n - 1].1;
    CallerBucket(config, requests, n);
    ClockAdvances(requests, n - 1);
    CallerStays(config, Stay(config, requests, n - 1, key), BucketOf(TableAt(config, requests, n - 1), key),
                ClockAt(requests, n - 1), now);
  }

  lemma CallerStays(config: Config, stay: seq<real>, bucket: seq<real>, clock: real, now: real)
    requires config.Valid() && StayInv(config, stay, bucket, clock) && clock <= now
    ensures var rest := Expire(bucket, now - Seconds(config.window));
            if |rest| < config.limit then StayInv(config, stay + [now], rest + [now], now)
            else StayInv(config, stay, rest, now)
  {
    hide Seconds, StayInv, Expire;
    StayExpires(config, stay, bucket, clock, now);
    var rest := Expire(bucket, now - Seconds(config.window));
    if |rest| < config.limit {
      StayAllows(config, stay, rest, now);
    }
  }

  lemma StayStep(config: Config, requests: seq<Request>, n: nat, key: Client)
    requires config.Valid() && IsRun(requests) && 0 < n <= |requests|
    requires StayInv(config, Stay(config, requests, n - 1, key), BucketOf(TableAt(config, requests, n - 1), key),
                     ClockAt(requests, n - 1))
    ensures StayInv(config, Stay(config, requests, n, key), BucketOf(TableAt(config, requests, n), key),
                    ClockAt(requests, n))
  {
    hide Seconds, Consume, StayInv, Grouping.Find, BucketOf, Expire, TableAt, Stay, DecisionAt, ClockAt, IsRun, Recent, Keys,
         Sorting.NoDuplicates;
    var table := TableAt(config, requests, n - 1);
    var now, caller := requests[n - 1].0, requests[n - 1].1;
    Unfolded(config, requests, n);
    StayUnfolds(config, requests, n, key);
    ClockAdvances(requests, n - 1);
    if Grouping.Find(TableAt(config, requests, n), key).None? {
      EmptyStay(config, now);
      NoBucket(TableAt(config, requests, n), key);
    } else if caller == key {
      StayOfCaller(config, requests, n);
    } else {
      KeysDistinct(config, requests, n - 1);
      KeysDistinct(config, requests, n);
      OthersKept(config, table, now, caller, key);
      StayWaits(config, Stay(config, requests, n - 1, key), BucketOf(table, key), ClockAt(requests, n - 1), now);
    }
  }

  lemma StartsEmpty(config: Config, requests: seq<Request>, key: Client)
    requires config.Valid()
    ensures Stay(config, requests, 0, key) == [] && BucketOf(TableAt(config, requests, 0), key) == []
  {
  }

  lemma EmptyStay(config: Config, clock: real)
    ensures StayInv(config, [], [], clock)
  {
  }

  lemma NoBucket(table: Table, key: Client)
    requires Grouping.Find(table, key).None?
    ensures BucketOf(table, key) == []
  {
  }

  lemma StayWaits(config: Config, stay: seq<real>, bucket: seq<real>, clock: real, now: real)
    requires StayInv(config, stay, bucket, clock) && clock <= now
    ensures StayInv(config, stay, bucket, now)
  {
  }

  // ----- counting -----------------------------------------------------------------------------

  lemma {:induction false} CountSuffix(times: seq<real>, m: nat, low: real, high: real)
    requires m <= |times| && forall i :: 0 <= i < m ==> times[i] <= low
    ensures CountIn(times, low, high) <= |times| - m
  {
    if times != [] {
      var shorter := times[..|times| - 1];
      CountSuffix(shorter, if m == |times| then m - 1 else m, low, high);
    }
  }

  lemma {:induction false} CountExact(times: seq<real>, m: nat, low: real, high: real)
    requires m <= |times|
    requires forall i :: 0 <= i < |times| ==> times[i] <= high && (times[i] > low <==> i >= m)
    ensures CountIn(times, low, high) == |times| - m
  {
    if times != [] {
      var shorter := times[..|times| - 1];
      CountExact(shorter, if m == |times| then m - 1 else m, low, high);
    }
  }

  lemma {:induction false} SpacedCount(config: Config, stay: seq<real>, t: real)
    requires Spaced(config, stay)
    ensures CountIn(stay, t - Seconds(config.window), t) <= config.limit
  {
    if |stay| > config.limit {
      var last := |stay| - 1;
      if stay[last] > t {
        var shorter := stay[..last];
        forall i, j | 0 <= i && j == i + config.limit && j < |shorter|
          ensures shorter[j] - shorter[i] >= Seconds(config.window)
        {
          assert stay[j] - stay[i] >= Seconds(config.window);
        }
        SpacedCount(config, shorter, t);
      } else {
        var m := |stay| - config.limit;
        var edge := last - config.limit;
        assert stay[last] - stay[edge] >= Seconds(config.window);
        forall i | 0 <= i < m ensures stay[i] <= t - Seconds(config.window) {
          assert i < edge ==> stay[i] <= stay[edge];
        }
        CountSuffix(stay, m, t - Seconds(config.window), t);
      }
    }
  }

  // ----- main results -------------------------------------------------------------------------

  /** While a client stays in the table, no window holds more than `limit` of its allowed requests. */
  lemma WindowBound(config: Config, requests: seq<Request>, n: nat, key: Client, t: real)
    requires config.Valid() && IsRun(requests) && n <= |requests|
    ensures CountIn(Stay(config, requests, n, key), t - Seconds(config.window), t) <= config.limit
  {
    if requests == [] {
      assert Stay(config, requests, n, key) == [];
    } else {
      StayHolds(config, requests, n, key);
      SpacedCount(config, Stay(config, requests, n, key), t);
    }
  }

  /** A call is allowed exactly if what is left of the bucket is below the limit. */
  lemma AllowedIs(config: Config, requests: seq<Request>, n: nat)
    requires config.Valid() && n < |requests|
    ensures var (now, key) := requests[n];
            var rest := Expire(BucketOf(TableAt(config, requests, n), key), now - Seconds(config.window));
            DecisionAt(config, requests, n).allowed <==> |rest| < config.limit
  {
    hide Expire, BucketOf, ResetAfter, TableAt, Seconds;
  }

  lemma ResetIs(config: Config, requests: seq<Request>, n: nat)
    requires config.Valid() && n < |requests|
    ensures var (now, key) := requests[n];
            var rest := Expire(BucketOf(TableAt(config, requests, n), key), now - Seconds(config.window));
            |rest| >= config.limit ==> DecisionAt(config, requests, n).resetAfter == ResetAfter(config, rest[0], now)
  {
    hide Expire, BucketOf, ResetAfter, TableAt, Seconds;
  }

  lemma WindowEdge(config: Config, stay: seq<real>, rest: seq<real>, now: real)
    requires StayInv(config, stay, rest, now)
    requires forall i :: |stay| - |rest| <= i < |stay| ==> stay[i] > now - Seconds(config.window)
    ensures |rest| <= |stay| && |rest| <= config.limit
    ensures forall i :: 0 <= i < |stay| ==>
              stay[i] <= now && (stay[i] > now - Seconds(config.window) <==> i >= |stay| - |rest|)
  {
    hide Seconds, Spaced;
  }

  /** The bucket that a call compares with the limit holds exactly the allowed times in its window. */
  lemma WindowIsBucket(config: Config, requests: seq<Request>, n: nat)
    requires config.Valid() && IsRun(requests) && n < |requests|
    ensures var (now, key) := requests[n];
            var rest := Expire(BucketOf(TableAt(config, requests, n), key), now - Seconds(config.window));
            && |rest| <= config.limit
            && CountIn(Stay(config, requests, n, key), now - Seconds(config.window), now) == |rest|
  {
    hide Seconds, Expire, BucketOf, TableAt, Stay, Spaced, IsRun, ClockAt, CountIn;
    var (now, key) := requests[n];
    ClockAdvances(requests, n);
    var stay := Stay(config, requests, n, key);
    var bucket := BucketOf(TableAt(config, requests, n), key);
    var rest := Expire(bucket, now - Seconds(config.window));
    StayHolds(config, requests, n, key);
    StayExpires(config, stay, bucket, ClockAt(requests, n), now);
    hide StayInv;
    WindowEdge(config, stay, rest, now);
    CountExact(stay, |stay| - |rest|, now - Seconds(config.window), now);
  }

  /** A request is refused exactly when `limit` allowed ones lie in the window that ends with it. */
  lemma RefusedIffFull(config: Config, requests: seq<Request>, n: nat)
    requires config.Valid() && IsRun(requests) && n < |requests|
    ensures var (now, key) := requests[n];
            !DecisionAt(config, requests, n).allowed
            <==> CountIn(Stay(config, requests, n, key), now - Seconds(config.window), now) == config.limit
  {
    hide Seconds, DecisionAt, Stay, CountIn, IsRun;
    WindowIsBucket(config, requests, n);
    AllowedIs(config, requests, n);
  }

  /** A full bucket whose oldest time has left the window has room again. */
  lemma OldestLeaves(rest: seq<real>, cutoff: real)
    requires rest != [] && rest[0] <= cutoff
    ensures |Expire(rest, cutoff)| < |rest|
  {
  }

  /** After a refusal the bucket is full, and the announced reset waits for its oldest time. */
  lemma BucketAfterRefusal(config: Config, requests: seq<Request>, n: nat) returns (rest: seq<real>)
    requires config.Valid() && IsRun(requests) && n < |requests|
    requires !DecisionAt(config, requests, n).allowed
    ensures |rest| == config.limit
    ensures BucketOf(TableAt(config, requests, n + 1), requests[n].1) == rest
    ensures requests[n].0 + Seconds(DecisionAt(config, requests, n).resetAfter) >= rest[0] + Seconds(config.window)
  {
    hide Seconds, DecisionAt, Consume, TableAt, Expire, BucketOf, ResetAfter, IsRun, Stay, CountIn, Grouping.Find, Keys, Recent;
    var (now, key) := requests[n];
    var table := TableAt(config, requests, n);
    rest := Expire(BucketOf(table, key), now - Seconds(config.window));
    AllowedIs(config, requests, n);
    ResetIs(config, requests, n);
    WindowIsBucket(config, requests, n);
    Unfolded(config, requests, n + 1);
    KeysDistinct(config, requests, n + 1);
    CallerKept(config, table, now, key);
  }

  /** A call is admitted, if the oldest time of a full bucket has left its window. */
  lemma RoomAgain(config: Config, requests: seq<Request>, n: nat, rest: seq<real>)
    requires config.Valid() && n < |requests| && |rest| == config.limit
    requires BucketOf(TableAt(config, requests, n), requests[n].1) == rest
    requires rest[0] + Seconds(config.window) <= requests[n].0
    ensures DecisionAt(config, requests, n).allowed
  {
    hide TableAt, BucketOf, Expire, Seconds, ResetAfter;
    var cutoff := requests[n].0 - Seconds(config.window);
    assert rest != [] && rest[0] <= cutoff;
    OldestLeaves(rest, cutoff);
    assert |Expire(rest, cutoff)| < config.limit;
  }

  /** A retry that waits for the announced reset, with nothing in between, is admitted. */
  lemma RetryIsAdmitted(config: Config, requests: seq<Request>, n: nat)
    requires config.Valid() && IsRun(requests) && n + 1 < |requests|
    requires requests[n + 1].1 == requests[n].1
    requires !DecisionAt(config, requests, n).allowed
    requires requests[n + 1].0 >= requests[n].0 + Seconds(DecisionAt(config, requests, n).resetAfter)
    ensures DecisionAt(config, requests, n + 1).allowed
  {
    hide *;
    var rest := BucketAfterRefusal(config, requests, n);
    RoomAgain(config, requests, n + 1, rest);
  }
}
