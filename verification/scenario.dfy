/** An end-to-end walk through the model: a container is discovered and
    later goes away; one of its log lines is counted, and the idle label is
    evicted by the sweep once it is older than the TTL. */
module Scenario {
  import opened Wrappers
  import opened BoundedInts
  import Utf8
  import opened Metrics
  import opened Watcher
  import opened Dispatcher

  /** A `foo:latest` container is watched under the configured image
      `foo`, with its first name as the watcher's name. */
  lemma Discover(id: string, name: string)
    ensures var web := Container(id, [name], "foo:latest");
      && Reconcile(map[], Listed([web]), ["foo"]).started == {id}
      && Reconcile(map[], Listed([web]), ["foo"]).tracked == map[id := Handle(name, false)]
  {
    var web := Container(id, [name], "foo:latest");
    assert "foo:latest"[..3] == "foo";
    assert StripTag("foo:latest") == "foo";
    assert Tracks(["foo"], [web][0].image);
    assert MatchingIds([web], ["foo"]) == {id};
    assert FirstMatch([web], ["foo"], id) == Some(web);
    assert Reconcile(map[], Listed([web]), ["foo"]).tracked.Keys == {id};
  }

  /** When the listing comes back empty the watcher is cancelled and
      removed. */
  lemma Retire(id: string, name: string)
    ensures Reconcile(map[id := Handle(name, false)], Listed([]), ["foo"]).tracked == map[]
    ensures Reconcile(map[id := Handle(name, false)], Listed([]), ["foo"]).stopped == map[id := Handle(name, true)]
  {
    var none: seq<Container> := [];
    assert MatchingIds(none, ["foo"]) == {};
    assert Reconcile(map[id := Handle(name, false)], Listed([]), ["foo"]).stopped.Keys == {id};
  }

  /** The bytes of the log line `200=200 https://<domain>/path`. */
  function ExampleLine(domain: string): seq<uint8> {
    Utf8.Encode("200=200 https://" + domain + "/path")
  }

  /** Stands in for the pattern applied to `ExampleLine(domain)`: it returns
      that line's captures, the status group `200` and the domain group
      holding the domain's bytes. The pattern itself is not modelled, so
      the bytes it is given are not inspected. */
  function ExampleMatch(domain: string): seq<uint8> -> Option<Captures> {
    (line: seq<uint8>) => Some(Captures(Some([0x32, 0x30, 0x30]), Some(Utf8.Encode(domain))))
  }

  lemma TwoHundred(status: Digits)
    requires status == [0x32, 0x30, 0x30]
    ensures ParseU16(status) == Some(200)
  {
    assert status[1..] == [0x30, 0x30] && status[1..][1..] == [0x30];
    assert Fold(20, [0x30]) == Fold(200, []) == 200;
    assert Fold(2, [0x30, 0x30]) == 200;
    assert DecimalValue(status) == Fold(2, [0x30, 0x30]);
  }

  /** The example line reports a request for (`domain`, 200). */
  lemma ExampleClassified(domain: string)
    ensures Classify(ExampleMatch(domain)(ExampleLine(domain))) == Request(RequestLabel(domain, 200))
  {
    Utf8.DecodeEncode(domain);
    TwoHundred([0x32, 0x30, 0x30]);
  }

  /** The example line, read at second `t`, is counted once; the sweep at
      `t` plus the TTL keeps the label and the sweep five seconds later
      evicts it. */
  lemma CountThenEvict(domain: string, t: Tick)
    ensures var s := ProcessLine(Empty(), LogLine(ExampleLine(domain), t), ExampleMatch(domain));
      var key := RequestLabel(domain, 200);
      && s.requests == map[key := 1]
      && key in Sweep(s, t + CLEANUP_ENTRY_TTL_SECS, CLEANUP_ENTRY_TTL_SECS).requests
      && Sweep(s, t + CLEANUP_ENTRY_TTL_SECS + 5, CLEANUP_ENTRY_TTL_SECS).requests == map[]
  {
    var key := RequestLabel(domain, 200);
    ExampleClassified(domain);
    var s := ProcessLine(Empty(), LogLine(ExampleLine(domain), t), ExampleMatch(domain));
    assert s == Store(map[key := 1], map[key := t]);
  }
}
