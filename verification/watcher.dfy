/** What a container watcher (src/main.rs, `watcher`) does with each log
    line it reads. The pattern `[0-9]+=([0-9]+) https?://([^/]+)/` is not
    modelled: the caller supplies the matcher as a function from a line's
    bytes to its optional capture groups. Everything after the match is:
    the status capture is parsed as a `u16` with checked arithmetic, the
    domain capture must be well-formed UTF-8, and a surviving line makes
    exactly one `record` call on the metric store. */
module Watcher {
  import opened Wrappers
  import opened BoundedInts
  import Utf8
  import opened Metrics

  predicate IsDigit(b: uint8) {
    0x30 <= b <= 0x39
  }

  predicate AllDigits(d: seq<uint8>) {
    forall i :: 0 <= i < |d| ==> IsDigit(d[i])
  }

  /** What the status group `([0-9]+)` can capture: one or more ASCII digits. */
  type Digits = d: seq<uint8> | |d| > 0 && AllDigits(d) witness [0x30]

  /** The capture groups of one match; a group may be absent. */
  datatype Captures = Captures(status: Option<Digits>, domain: Option<seq<uint8>>)

  /** The unbounded value of the digits `d` written after the digits of
      `acc`. */
  function Fold(acc: nat, d: seq<uint8>): nat
    requires AllDigits(d)
    decreases |d|
  {
    if |d| == 0 then acc else Fold(acc * 10 + (d[0] - 0x30), d[1..])
  }

  /** The decimal value of a digit string; leading zeros add nothing. */
  function DecimalValue(d: seq<uint8>): nat
    requires AllDigits(d)
  {
    Fold(0, d)
  }

  lemma {:induction false} FoldAtLeast(acc: nat, d: seq<uint8>)
    requires AllDigits(d)
    ensures Fold(acc, d) >= acc
    decreases |d|
  {
    if |d| > 0 {
      FoldAtLeast(acc * 10 + (d[0] - 0x30), d[1..]);
    }
  }

  /** The digit loop of `u16::from_str`: multiply by ten and add the next
      digit, each step checked, failing on the first overflow. It fails
      exactly when the unbounded value does not fit in 16 bits. */
  function CheckedAccumulate(acc: uint16, d: seq<uint8>): (r: Option<uint16>)
    requires AllDigits(d)
    ensures Fold(acc, d) <= UINT16_MAX ==> r == Some(Fold(acc, d))
    ensures Fold(acc, d) > UINT16_MAX ==> r == None
    decreases |d|
  {
    if |d| == 0 then Some(acc)
    else
      var scaled := acc * 10;
      if scaled > UINT16_MAX then
        FoldAtLeast(scaled + (d[0] - 0x30), d[1..]);
        None
      else
        var next := scaled + (d[0] - 0x30);
        if next > UINT16_MAX then
          FoldAtLeast(next, d[1..]);
          None
        else
          CheckedAccumulate(next, d[1..])
  }

  /** `u16::from_str` on a capture of the status group. */
  function ParseU16(d: Digits): (r: Option<uint16>)
    ensures r.Some? <==> DecimalValue(d) <= UINT16_MAX
    ensures r.Some? ==> r.value == DecimalValue(d)
  {
    CheckedAccumulate(0, d)
  }

  /** Leading zeros are accepted and do not change the value. */
  lemma LeadingZeroIgnored(d: Digits)
    ensures ParseU16([0x30] + d) == ParseU16(d)
  {
    assert ([0x30] + d)[1..] == d;
  }

  /** Why a line was dropped, or the request it reports. The cases are
      listed in the order the watcher checks them. */
  datatype LineOutcome =
    | NoMatch
    | NoStatusGroup
    | StatusOverflow
    | NoDomainGroup
    | DomainNotUtf8
    | Request(key: RequestLabel)

  /** The checks the watcher makes after matching one line. */
  function Classify(m: Option<Captures>): (r: LineOutcome)
    ensures r.Request? <==>
      && m.Some? && m.value.status.Some? && m.value.domain.Some?
      && DecimalValue(m.value.status.value) <= UINT16_MAX
      && Utf8.IsWellFormed(m.value.domain.value)
    ensures r.Request? ==> r.key.statusCode == DecimalValue(m.value.status.value)
    ensures r.Request? ==> Utf8.Encode(r.key.domain) == m.value.domain.value
    ensures m.Some? && m.value.status.Some? && DecimalValue(m.value.status.value) > UINT16_MAX ==>
      r == StatusOverflow
  {
    match m
    case None => NoMatch
    case Some(caps) =>
      match caps.status
      case None => NoStatusGroup
      case Some(digits) =>
        match ParseU16(digits)
        case None => StatusOverflow
        case Some(status) =>
          match caps.domain
          case None => NoDomainGroup
          case Some(bytes) =>
            match Utf8.Decode(bytes)
            case None => DomainNotUtf8
            case Some(domain) =>
              Utf8.EncodeDecode(bytes);
              Request(RequestLabel(domain, status))
  }

  /** One line of a container's log stream and the second it was read. */
  datatype LogLine = LogLine(bytes: seq<uint8>, at: Tick)

  /** Handles one line: a line classified as a request is recorded once,
      at the time it was read; any other line leaves the store as it was. */
  function ProcessLine(s: Store, line: LogLine, extract: seq<uint8> -> Option<Captures>): (r: Store)
    ensures !Classify(extract(line.bytes)).Request? ==> r == s
    ensures Classify(extract(line.bytes)).Request? ==>
      var key := Classify(extract(line.bytes)).key;
      && r.requests.Keys == s.requests.Keys + {key}
      && CountOf(r, key) == CountOf(s, key) + 1
      && key in r.lastSeen && r.lastSeen[key] == line.at
      && (forall k :: k != key ==> CountOf(r, k) == CountOf(s, k))
  {
    match Classify(extract(line.bytes))
    case Request(key) => Record(s, key, line.at)
    case _ => s
  }

  /** Handles the lines of one stream in the order they were read. */
  function ProcessLines(s: Store, lines: seq<LogLine>, extract: seq<uint8> -> Option<Captures>): (r: Store)
    ensures s.requests.Keys <= r.requests.Keys
    ensures forall k :: CountOf(s, k) <= CountOf(r, k)
    ensures SameKeys(s) ==> SameKeys(r)
    decreases |lines|
  {
    if |lines| == 0 then s else ProcessLines(ProcessLine(s, lines[0], extract), lines[1..], extract)
  }

  /** The `record` calls a stream of lines makes, in order. */
  function Requests(lines: seq<LogLine>, extract: seq<uint8> -> Option<Captures>): (hits: seq<Hit>)
    ensures |hits| <= |lines|
    decreases |lines|
  {
    if |lines| == 0 then []
    else
      var rest := Requests(lines[1..], extract);
      match Classify(extract(lines[0].bytes))
      case Request(key) => [Hit(key, lines[0].at)] + rest
      case _ => rest
  }

  /** Reading a stream line by line is the same as making its `record`
      calls one after another. */
  lemma {:induction false} ProcessLinesRecordsRequests(s: Store, lines: seq<LogLine>, extract: seq<uint8> -> Option<Captures>)
    ensures ProcessLines(s, lines, extract) == RecordAll(s, Requests(lines, extract))
    decreases |lines|
  {
    if |lines| > 0 {
      var s' := ProcessLine(s, lines[0], extract);
      ProcessLinesRecordsRequests(s', lines[1..], extract);
      var rest := Requests(lines[1..], extract);
      match Classify(extract(lines[0].bytes))
      case Request(key) =>
        var hits := [Hit(key, lines[0].at)] + rest;
        assert hits[1..] == rest;
      case _ =>
    }
  }

  /** How many lines of the stream are classified as a request for `key`. */
  function CountRequests(lines: seq<LogLine>, extract: seq<uint8> -> Option<Captures>, key: RequestLabel): nat
    decreases |lines|
  {
    if |lines| == 0 then 0
    else
      var here := if Classify(extract(lines[0].bytes)) == Request(key) then 1 else 0;
      here + CountRequests(lines[1..], extract, key)
  }

  lemma {:induction false} OccurrencesOfRequests(lines: seq<LogLine>, extract: seq<uint8> -> Option<Captures>, key: RequestLabel)
    ensures Occurrences(Requests(lines, extract), key) == CountRequests(lines, extract, key)
    decreases |lines|
  {
    if |lines| > 0 {
      OccurrencesOfRequests(lines[1..], extract, key);
      var rest := Requests(lines[1..], extract);
      match Classify(extract(lines[0].bytes))
      case Request(k) =>
        assert ([Hit(k, lines[0].at)] + rest)[1..] == rest;
      case _ =>
    }
  }

  /** Between sweeps, a stream raises each label's count by exactly the
      number of its lines that report that label, and keeps the counter
      and last-seen maps in step. */
  lemma StreamCounts(s: Store, lines: seq<LogLine>, extract: seq<uint8> -> Option<Captures>, key: RequestLabel)
    requires SameKeys(s)
    ensures SameKeys(ProcessLines(s, lines, extract))
    ensures CountOf(ProcessLines(s, lines, extract), key) == CountOf(s, key) + CountRequests(lines, extract, key)
  {
    ProcessLinesRecordsRequests(s, lines, extract);
    RecordAllCounts(s, Requests(lines, extract));
    OccurrencesOfRequests(lines, extract, key);
  }
}
