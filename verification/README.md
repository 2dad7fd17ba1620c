# at-urls-log-stats, modelled in Dafny

The service watches the Docker containers that run configured images,
tails their logs, pulls an HTTP status code and a domain out of each
matching line, and counts requests per (domain, status code) label with
idle labels evicted after a TTL. This project models its sequential core
as pure functions over immutable values and proves what they promise.

- `Dispatcher` (dispatcher.dfy) is one poll of the `dispatcher` loop. It
  takes the tracked map (container ID to watcher handle), the result of
  listing the containers and the configured images. It returns the new map,
  the IDs whose watchers were started, the handles that were cancelled and
  removed, and the delay before the next poll (60 s, or 10 s after a failed
  listing). A handle is its display name and a cancelled flag. Image
  matching cuts the image at its last `:` and compares the rest for exact
  equality with a configured image.
- `Watcher` (watcher.dfy) is what the watcher does with one log line once
  the pattern has matched. The status capture is parsed as a `u16` with
  checked digit-by-digit arithmetic, and a value above 65535 drops the line.
  A domain that is not well-formed UTF-8 drops the line. Any other line
  makes exactly one `record` call. The matcher itself is a function
  parameter.
- `Utf8` (utf8.dfy) is the validation `str::from_utf8` performs, written as
  a decoder with an encoder as its partner, proved inverse in both
  directions.
- `Metrics` (metrics.dfy) is the metric store: the counter family and the
  last-seen map, `record` (get-or-create, increment, refresh the time) and
  one step of the periodic cleanup (evict every label whose age is strictly
  above the TTL). Time is whole seconds as `nat`.
- `Config` (config.dfy) is `Config::default` and `Config::validate`.
- `Scenario` (scenario.dfy) walks one container and one log line through
  discovery, counting, retirement and eviction.
- `Wrappers` and `BoundedInts` hold `Option` and the `u8`/`u16` types.

Two behaviours of the code that the model keeps as written:

- `rsplit_once(":")` at src/main.rs:107 cuts the image at its last `:`,
  whatever follows it. So an image with a registry port and no tag, such as
  `localhost:5000/app`, is compared as `localhost`.
- A vanished container's handle is removed from the map (src/main.rs:140)
  before it is cancelled (src/main.rs:142) and its task awaited
  (src/main.rs:143). The model returns the removed handles marked
  cancelled.

## Model

| member | source | states |
|---|---|---|
| Dispatcher.LastIndexOf | src/main.rs:107 | finds the last occurrence of a character: absent exactly when the character is not in the string, otherwise that character with none after it |
| Dispatcher.StripTag | src/main.rs:107 | an image without `:` is kept whole; otherwise the result is the prefix up to the last `:`, and no `:` follows that position |
| Dispatcher.Admit | src/main.rs:106-130 | the scan marks alive exactly the listed IDs whose image passes the filter; it adds exactly the alive IDs not yet tracked; it leaves every tracked handle unchanged; each new handle is uncancelled and named after the first matching container with that ID (its first name, else its ID) |
| Dispatcher.Reconcile | src/main.rs:96-151 | failed listing: map unchanged, nothing started or stopped, next delay 10 s. Successful listing: tracked IDs equal the matching listed IDs; started = matching minus previously tracked; stopped = previously tracked minus matching, each handed back cancelled; kept handles untouched; new handles named from the first matching occurrence; next delay 60 s |
| Dispatcher.Retained | src/main.rs:131-146 | after the removal pass the map holds exactly the previously held IDs that are alive, each with its handle unchanged |
| Dispatcher.Retired | src/main.rs:131-146 | the removal pass takes out exactly the held IDs that are not alive, and each removed handle is cancelled with its name kept |
| Dispatcher.UnmatchedNeverTracked | src/main.rs:107-146 | an ID whose listed containers all fail the image filter is not tracked after the poll, and is stopped if it was tracked |
| Dispatcher.ReconcileKeepsRunning | src/main.rs:120-146 | a poll preserves "no tracked handle is cancelled", and every handle it removes is cancelled |
| Dispatcher.ReconcileSettled | src/main.rs:120-146 | a poll whose matching IDs are exactly the tracked IDs starts nothing, stops nothing and keeps the map |
| Dispatcher.ReconcileIdempotent | src/main.rs:104-151 | repeating a poll with the same listing changes nothing more: same map, nothing started or stopped |
| Dispatcher.RunTracksLatestListing | src/main.rs:96-162 | after any run of polls the tracked IDs are the matching IDs of the latest successful listing; with no successful listing the map is the initial one |
| Dispatcher.Run | src/main.rs:96-162 | over any run of polls, no handle becomes cancelled while it is tracked, and every tracked handle is either the initial one for its ID or a freshly started, uncancelled one |
| Dispatcher.Shutdown | src/main.rs:164-166 | on global cancellation every remaining handle is cancelled, with the same IDs and names |
| Watcher.CheckedAccumulate | src/main.rs:231 | the checked multiply-by-ten-and-add loop fails exactly when the unbounded decimal value exceeds 65535, and otherwise yields that value |
| Watcher.ParseU16 | src/main.rs:230-234 | a status capture parses iff its decimal value is at most 65535, and then to that value |
| Watcher.LeadingZeroIgnored | src/main.rs:231 | a leading zero does not change the parse |
| Watcher.Classify | src/main.rs:226-242 | a line yields a request iff it matched, has both groups, its status fits in 16 bits and its domain is well-formed UTF-8; the label's status is the digits' value and the domain's UTF-8 encoding is exactly the captured bytes; a status overflow is reported before any domain check |
| Watcher.ProcessLine | src/main.rs:223-243 | a dropped line leaves the store unchanged; a request line adds its label, raises its count by one, sets its last-seen time to the line's time and changes no other count |
| Watcher.ProcessLinesRecordsRequests | src/main.rs:215-249 | reading a stream line by line equals making its `record` calls in order |
| Watcher.ProcessLines | src/main.rs:215-249 | reading a stream never removes a label or lowers a count, and it keeps the counter and last-seen key sets equal |
| Watcher.StreamCounts | src/main.rs:215-249 | between sweeps a stream raises each label's count by the number of its lines that report that label, and keeps the two maps' key sets equal |
| Utf8.DecodeEncode | src/main.rs:238 | every string's UTF-8 bytes decode back to the string |
| Utf8.Decode | src/main.rs:238 | whatever the decoder accepts is exactly the UTF-8 encoding of the string it returns |
| Utf8.EncodeDecode | src/main.rs:238 | every byte sequence the decoder accepts is exactly the encoding of the string it decodes to |
| Metrics.Record | src/metrics.rs:98-110 | the label is added to both maps; an absent label gets count 1, a present one its count plus one; its last-seen time becomes now; every other label's count and time are unchanged |
| Metrics.Sweep | src/metrics.rs:84-94 | a label stays in the last-seen map iff its age is at most the TTL; a label stays in the counter family iff it is not stale; surviving values are unchanged |
| Metrics.Age | src/metrics.rs:88 | the age is the elapsed seconds when the last-seen time is not in the future, and zero otherwise, as `duration_since` saturates |
| Metrics.RecordPreservesSameKeys | src/metrics.rs:103-109 | `record` keeps the counter and last-seen key sets equal |
| Metrics.SweepPreservesSameKeys | src/metrics.rs:86-94 | the sweep keeps the key sets equal, and removes from the counters exactly the labels older than the TTL |
| Metrics.SweepKeepsAgeEqualToTtl | src/metrics.rs:88 | a label whose age equals the TTL exactly survives the sweep |
| Metrics.SweepIdempotent | src/metrics.rs:84-94 | a second sweep at the same instant changes nothing |
| Metrics.NextSweepAfter | src/metrics.rs:79-84 | the next sweep after an instant comes strictly later, at most one cleanup interval (10 s) later, on the sweep schedule |
| Metrics.EvictedWithinOneInterval | src/metrics.rs:22-24 | with the default 10 s interval and 60 s TTL, an idle label is gone from both maps at the first sweep after its TTL runs out, at most 10 s after that |
| Metrics.RecordAfterEvictionRestarts | src/metrics.rs:84-109 | a request for an evicted label starts its count again at 1 |
| Metrics.RecordAllCounts | src/metrics.rs:98-110 | no increment is lost: after a run of requests each label's count is its old count plus the number of requests for it, and the key sets stay equal |
| Config.Default | src/config.rs:14-20 | the defaults are the single image `atdr.meo.ws/archiveteam/urls-grab`, the socket `/var/run/docker.sock` and the address `0.0.0.0:8000` |
| Config.Validate | src/config.rs:22-32 | valid iff both the image list and the socket are non-empty; an empty image list is the error whatever the socket; the socket error iff images are present and the socket is empty |
| Config.ValidateIgnoresListenAddress | src/config.rs:22-32 | the listen address never affects validation |
| Config.EmptyImagesWins | src/config.rs:23-25 | an empty image list reports `docker_images can't be empty` |
| Config.DefaultIsValid | src/config.rs:14-32 | the default configuration passes validation |
| Scenario.Discover | src/main.rs:104-130 | a `foo:latest` container is tracked under the configured image `foo`, named after its first name, and reported as started |
| Scenario.Retire | src/main.rs:131-146 | when the listing comes back empty the tracked watcher is removed and handed back cancelled |
| Scenario.ExampleClassified | src/main.rs:226-242 | the captures of the line `200=200 https://<domain>/path` (status `200`, the domain's bytes) classify as a request for (domain, 200) |
| Scenario.CountThenEvict | src/metrics.rs:84-109 | that line counts once; a sweep exactly the TTL later keeps the label and one five seconds later evicts it |

## Left out

- Docker transport: `list_containers`, the log-stream request, line splitting with `read_until` and JSON decoding are network I/O. The container list and the log lines (with the second each was read) are inputs.
- The regular expression `[0-9]+=([0-9]+) https?://([^/]+)/` is not modelled. The matcher is a function parameter. Its status group is typed as one or more ASCII digits, as that group guarantees. So the `expect` on the status capture's UTF-8 cannot fail, and the sign handling of `u16::from_str` is never reached.
- Tokio machinery: `select!`, cancellation tokens, task spawning and joining, sleeps, the watcher's 1-second reconnect loop and the awaits of the shutdown drain. Cancellation is a flag on the handle; delays are returned values.
- The interleaving of concurrent `request` calls with the sweep. The counter and the last-seen time are updated under separate locks, so an interleaved sweep can leave the maps out of step. The equal-key-sets invariant is proved for sequential runs only.
- The `periodic_cleanup` loop shell, which keeps looping after cancellation. Only one sweep step is modelled.
- Prometheus text encoding and the axum `/metrics` endpoint. A snapshot is the counter map (`Metrics.CountOf`).
- `Config::load_from_file`, logging setup and wall-clock reads. Time is whole seconds as `nat`, where the source uses sub-second `Instant`s.
- Metrics.Record: the counter is an unbounded `nat`. The source's 64-bit counter would wrap after 2^64 increments.
- Metrics.NextSweepAfter: sweeps are placed exactly every 10 s from time zero. The real loop sleeps 10 s after each sweep finishes, so the time a sweep takes shifts the later ones.
- Dispatcher.Reconcile: the started IDs form a set. The order in which watchers are spawned and log messages are written is not modelled.
