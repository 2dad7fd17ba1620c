/** The metric store of src/metrics.rs: a request counter and a last-seen
    time per (domain, status code) label, with the periodic sweep that
    evicts idle labels. Time is a count of whole seconds. */
module Metrics {
  import opened BoundedInts

  /** Seconds between two sweeps. */
  const CLEANUP_INTERVAL_SECS: nat := 10
  /** Idle time after which a label is evicted. */
  const CLEANUP_ENTRY_TTL_SECS: nat := 60

  type Tick = nat

  /** The key of one counter series. */
  datatype RequestLabel = RequestLabel(domain: string, statusCode: uint16)

  /** The counter family and the last-seen map. */
  datatype Store = Store(requests: map<RequestLabel, nat>, lastSeen: map<RequestLabel, Tick>)

  /** In a sequential run the two maps always hold the same labels. */
  predicate SameKeys(s: Store) {
    s.requests.Keys == s.lastSeen.Keys
  }

  /** The count a snapshot reports for `key`, zero when it is absent. */
  function CountOf(s: Store, key: RequestLabel): nat {
    if key in s.requests then s.requests[key] else 0
  }

  function Empty(): (s: Store)
    ensures SameKeys(s) && s.requests == map[]
  {
    Store(map[], map[])
  }

  /** Elapsed time from `since` to `now`; an instant in the future gives
      zero, as `Instant::duration_since` saturates. */
  function Age(now: Tick, since: Tick): (r: nat)
    ensures since <= now ==> since + r == now
    ensures now < since ==> r == 0
  {
    if since <= now then now - since else 0
  }

  /** A key the sweep at `now` evicts: its age is strictly above `ttl`. */
  predicate IsStale(s: Store, key: RequestLabel, now: Tick, ttl: nat) {
    key in s.lastSeen && Age(now, s.lastSeen[key]) > ttl
  }

  /** One request: get-or-create the counter and increment it, then
      refresh the key's last-seen time. */
  function Record(s: Store, key: RequestLabel, now: Tick): (r: Store)
    ensures r.requests.Keys == s.requests.Keys + {key}
    ensures r.lastSeen.Keys == s.lastSeen.Keys + {key}
    ensures key !in s.requests ==> r.requests[key] == 1
    ensures key in s.requests ==> r.requests[key] == s.requests[key] + 1
    ensures r.lastSeen[key] == now
    ensures forall k :: k in s.requests && k != key ==> r.requests[k] == s.requests[k]
    ensures forall k :: k in s.lastSeen && k != key ==> r.lastSeen[k] == s.lastSeen[k]
  {
    var count := if key in s.requests then s.requests[key] else 0;
    var requests := s.requests[key := count + 1];
    Store(requests, s.lastSeen[key := now])
  }

  /** One pass of the periodic cleanup: walk the last-seen map, and drop
      every stale key from it and from the counter family. */
  function Sweep(s: Store, now: Tick, ttl: nat): (r: Store)
    ensures forall k :: k in r.lastSeen <==> k in s.lastSeen && Age(now, s.lastSeen[k]) <= ttl
    ensures forall k :: k in r.requests <==> k in s.requests && !IsStale(s, k, now, ttl)
    ensures forall k :: k in r.lastSeen ==> r.lastSeen[k] == s.lastSeen[k]
    ensures forall k :: k in r.requests ==> r.requests[k] == s.requests[k]
  {
    var stale := set k | k in s.lastSeen && Age(now, s.lastSeen[k]) > ttl;
    Store(
      map k | k in s.requests && k !in stale :: s.requests[k],
      map k | k in s.lastSeen && k !in stale :: s.lastSeen[k])
  }

  /** `record` keeps the two maps in step. */
  lemma RecordPreservesSameKeys(s: Store, key: RequestLabel, now: Tick)
    requires SameKeys(s)
    ensures SameKeys(Record(s, key, now))
  {
  }

  /** So does the sweep, which then removes exactly the stale labels from
      both maps. */
  lemma SweepPreservesSameKeys(s: Store, now: Tick, ttl: nat)
    requires SameKeys(s)
    ensures SameKeys(Sweep(s, now, ttl))
    ensures Sweep(s, now, ttl).requests.Keys == set k | k in s.requests && Age(now, s.lastSeen[k]) <= ttl
  {
  }

  /** The comparison is strict: a key exactly `ttl` old survives. */
  lemma SweepKeepsAgeEqualToTtl(s: Store, key: RequestLabel, now: Tick, ttl: nat)
    requires SameKeys(s) && key in s.lastSeen && s.lastSeen[key] + ttl == now
    ensures key in Sweep(s, now, ttl).requests
    ensures key in Sweep(s, now, ttl).lastSeen
  {
  }

  /** A second sweep at the same instant removes nothing more. */
  lemma SweepIdempotent(s: Store, now: Tick, ttl: nat)
    ensures Sweep(Sweep(s, now, ttl), now, ttl) == Sweep(s, now, ttl)
  {
    var once := Sweep(s, now, ttl);
    var twice := Sweep(once, now, ttl);
    assert twice.requests == once.requests;
    assert twice.lastSeen == once.lastSeen;
  }

  /** After a key is evicted, its next request starts the count over. */
  lemma RecordAfterEvictionRestarts(s: Store, key: RequestLabel, now: Tick, ttl: nat, later: Tick)
    requires SameKeys(s) && IsStale(s, key, now, ttl)
    ensures Record(Sweep(s, now, ttl), key, later).requests[key] == 1
  {
  }

  /** The first sweep strictly after `t`: sweeps run every
      `CLEANUP_INTERVAL_SECS` seconds from time zero. */
  function NextSweepAfter(t: Tick): (r: Tick)
    ensures t < r <= t + CLEANUP_INTERVAL_SECS
    ensures r % CLEANUP_INTERVAL_SECS == 0
  {
    (t / CLEANUP_INTERVAL_SECS + 1) * CLEANUP_INTERVAL_SECS
  }

  /** With the default schedule, an idle label disappears from both maps
      at the first sweep after its TTL has run out, so at most one sweep
      interval after that. */
  lemma EvictedWithinOneInterval(s: Store, key: RequestLabel)
    requires SameKeys(s) && key in s.lastSeen
    ensures var deadline := s.lastSeen[key] + CLEANUP_ENTRY_TTL_SECS;
      var at := NextSweepAfter(deadline);
      && at <= deadline + CLEANUP_INTERVAL_SECS
      && key !in Sweep(s, at, CLEANUP_ENTRY_TTL_SECS).requests
      && key !in Sweep(s, at, CLEANUP_ENTRY_TTL_SECS).lastSeen
  {
    var at := NextSweepAfter(s.lastSeen[key] + CLEANUP_ENTRY_TTL_SECS);
    assert Age(at, s.lastSeen[key]) > CLEANUP_ENTRY_TTL_SECS;
  }

  /** One observed request: a key and the instant it was recorded. */
  datatype Hit = Hit(key: RequestLabel, at: Tick)

  /** Records the hits in order, with no sweep in between. */
  function RecordAll(s: Store, hits: seq<Hit>): Store
    decreases |hits|
  {
    if |hits| == 0 then s else RecordAll(Record(s, hits[0].key, hits[0].at), hits[1..])
  }

  /** How many of the hits carry `key`. */
  function Occurrences(hits: seq<Hit>, key: RequestLabel): nat
    decreases |hits|
  {
    if |hits| == 0 then 0
    else (if hits[0].key == key then 1 else 0) + Occurrences(hits[1..], key)
  }

  /** No increment is lost: between sweeps every key's count grows by
      the number of requests made for it, the labels hit are exactly the
      labels added, and the maps stay in step. */
  lemma {:induction false} RecordAllCounts(s: Store, hits: seq<Hit>)
    requires SameKeys(s)
    ensures SameKeys(RecordAll(s, hits))
    ensures forall k :: CountOf(RecordAll(s, hits), k) == CountOf(s, k) + Occurrences(hits, k)
    ensures forall k :: k in RecordAll(s, hits).requests <==> k in s.requests || Occurrences(hits, k) > 0
    decreases |hits|
  {
    if |hits| > 0 {
      var s' := Record(s, hits[0].key, hits[0].at);
      RecordAllCounts(s', hits[1..]);
    }
  }
}
