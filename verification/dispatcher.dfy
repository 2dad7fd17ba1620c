/** One poll of the discovery loop of src/main.rs (`dispatcher`): the
    tracked watchers are reconciled against the container list the runtime
    returned. A watcher handle is reduced to its display name and whether
    it has been cancelled; the task it runs is not modelled. */
module Dispatcher {
  import opened Wrappers

  /** Delay before the next poll after a successful listing. */
  const SUCCESS_DELAY_SECS: nat := 60
  /** Delay before the next poll after a failed listing. */
  const FAILURE_DELAY_SECS: nat := 10

  /** One entry of the runtime's container list. */
  datatype Container = Container(id: string, names: seq<string>, image: string)

  /** The watcher kept for one tracked container. */
  datatype Handle = Handle(name: string, cancelled: bool)

  /** What listing the containers gave: the list, or an error message. */
  datatype Listing = Listed(containers: seq<Container>) | ListFailed(message: string)

  /** The result of one poll: the new tracked map, the IDs whose watchers
      were started, the handles that were cancelled and removed, and the
      delay before the next poll. */
  datatype Poll = Poll(
    tracked: map<string, Handle>,
    started: set<string>,
    stopped: map<string, Handle>,
    nextDelay: nat)

  /** The position of the last `c` in `s`. */
  function LastIndexOf(s: string, c: char): (r: Option<nat>)
    ensures r.None? <==> c !in s
    ensures r.Some? ==> r.value < |s| && s[r.value] == c && c !in s[r.value + 1..]
    decreases |s|
  {
    if |s| == 0 then None
    else if s[|s| - 1] == c then Some(|s| - 1)
    else
      var r := LastIndexOf(s[..|s| - 1], c);
      assert r.Some? ==> s[r.value + 1..] == s[..|s| - 1][r.value + 1..] + [s[|s| - 1]];
      assert r.None? ==> s == s[..|s| - 1] + [s[|s| - 1]];
      r
  }

  /** The image name with its tag removed: everything from the last `:`
      on is cut, and an image without a `:` is kept whole. */
  function StripTag(image: string): (r: string)
    ensures ':' !in image ==> r == image
    ensures ':' in image ==>
      && |r| < |image| && r == image[..|r|]
      && image[|r|] == ':' && ':' !in image[|r| + 1..]
  {
    match LastIndexOf(image, ':')
    case None => image
    case Some(i) => image[..i]
  }

  /** A container is watched when its untagged image is exactly one of the
      configured images. */
  predicate Tracks(images: seq<string>, image: string) {
    StripTag(image) in images
  }

  /** The name stored for a container: its first name, else its ID. */
  function DisplayName(c: Container): string {
    if |c.names| > 0 then c.names[0] else c.id
  }

  /** The IDs of the listed containers that pass the image filter. */
  function MatchingIds(cs: seq<Container>, images: seq<string>): set<string> {
    set i | 0 <= i < |cs| && Tracks(images, cs[i].image) :: cs[i].id
  }

  /** The first listed container with this ID that passes the filter. */
  function FirstMatch(cs: seq<Container>, images: seq<string>, id: string): Option<Container>
    decreases |cs|
  {
    if |cs| == 0 then None
    else if cs[0].id == id && Tracks(images, cs[0].image) then Some(cs[0])
    else FirstMatch(cs[1..], images, id)
  }

  lemma MatchingIdsCons(cs: seq<Container>, images: seq<string>)
    requires |cs| > 0
    ensures MatchingIds(cs, images) ==
      MatchingIds(cs[1..], images) + (if Tracks(images, cs[0].image) then {cs[0].id} else {})
  {
    var rest := cs[1..];
    forall id | id in MatchingIds(cs, images)
      ensures id in MatchingIds(rest, images) || (Tracks(images, cs[0].image) && id == cs[0].id)
    {
      var i :| 0 <= i < |cs| && Tracks(images, cs[i].image) && cs[i].id == id;
      if i > 0 {
        assert rest[i - 1] == cs[i];
      }
    }
    forall id | id in MatchingIds(rest, images)
      ensures id in MatchingIds(cs, images)
    {
      var i :| 0 <= i < |rest| && Tracks(images, rest[i].image) && rest[i].id == id;
      assert cs[i + 1] == rest[i];
    }
  }

  lemma {:induction false} FirstMatchExists(cs: seq<Container>, images: seq<string>, id: string)
    ensures FirstMatch(cs, images, id).Some? <==> id in MatchingIds(cs, images)
    ensures FirstMatch(cs, images, id).Some? ==>
      FirstMatch(cs, images, id).value.id == id && Tracks(images, FirstMatch(cs, images, id).value.image)
    decreases |cs|
  {
    if |cs| > 0 {
      MatchingIdsCons(cs, images);
      FirstMatchExists(cs[1..], images, id);
    }
  }

  /** The scan over the listed containers: every container that passes the
      filter is marked alive, and one not yet tracked gets a fresh,
      uncancelled handle named after it. Returns the new map, the IDs
      started and the alive set. */
  function Admit(tracked: map<string, Handle>, cs: seq<Container>, images: seq<string>)
    : (r: (map<string, Handle>, set<string>, set<string>))
    ensures r.2 == MatchingIds(cs, images)
    ensures r.0.Keys == tracked.Keys + r.2
    ensures r.1 == r.2 - tracked.Keys
    ensures forall id :: id in tracked ==> r.0[id] == tracked[id]
    ensures forall id :: id in r.1 ==>
      FirstMatch(cs, images, id).Some? && r.0[id] == Handle(DisplayName(FirstMatch(cs, images, id).value), false)
    decreases |cs|
  {
    if |cs| == 0 then
      (tracked, {}, {})
    else
      var c := cs[0];
      MatchingIdsCons(cs, images);
      if !Tracks(images, c.image) then
        Admit(tracked, cs[1..], images)
      else if c.id in tracked then
        var (t, started, alive) := Admit(tracked, cs[1..], images);
        (t, started, alive + {c.id})
      else
        var (t, started, alive) := Admit(tracked[c.id := Handle(DisplayName(c), false)], cs[1..], images);
        (t, started + {c.id}, alive + {c.id})
  }

  /** One poll. A failed listing changes nothing and shortens the delay; a
      successful one starts watchers for new matching containers, and
      cancels and removes those no longer alive. */
  function Reconcile(tracked: map<string, Handle>, listing: Listing, images: seq<string>): (r: Poll)
    ensures listing.ListFailed? ==> r == Poll(tracked, {}, map[], FAILURE_DELAY_SECS)
    ensures listing.Listed? ==> r.nextDelay == SUCCESS_DELAY_SECS
    ensures listing.Listed? ==> r.tracked.Keys == MatchingIds(listing.containers, images)
    ensures listing.Listed? ==> r.started == MatchingIds(listing.containers, images) - tracked.Keys
    ensures listing.Listed? ==> r.stopped.Keys == tracked.Keys - MatchingIds(listing.containers, images)
    ensures forall id :: id in r.tracked && id in tracked ==> r.tracked[id] == tracked[id]
    ensures forall id :: id in r.started ==>
      && listing.Listed? && id in r.tracked
      && FirstMatch(listing.containers, images, id).Some?
      && r.tracked[id] == Handle(DisplayName(FirstMatch(listing.containers, images, id).value), false)
    ensures forall id :: id in r.stopped ==> id in tracked && r.stopped[id] == tracked[id].(cancelled := true)
  {
    match listing
    case ListFailed(_) =>
      Poll(tracked, {}, map[], FAILURE_DELAY_SECS)
    case Listed(cs) =>
      var (admitted, started, alive) := Admit(tracked, cs, images);
      Poll(Retained(admitted, alive), started, Retired(admitted, alive), SUCCESS_DELAY_SECS)
  }

  /** The handles whose containers are still alive. */
  function Retained(tracked: map<string, Handle>, alive: set<string>): (r: map<string, Handle>)
    ensures r.Keys == tracked.Keys * alive
    ensures forall id :: id in r ==> r[id] == tracked[id]
  {
    map id | id in tracked && id in alive :: tracked[id]
  }

  /** The handles of containers no longer alive, each cancelled. */
  function Retired(tracked: map<string, Handle>, alive: set<string>): (r: map<string, Handle>)
    ensures r.Keys == tracked.Keys - alive
    ensures forall id :: id in r ==> r[id] == tracked[id].(cancelled := true)
  {
    map id | id in tracked && id !in alive :: tracked[id].(cancelled := true)
  }

  /** No listed container whose image fails the filter is ever tracked. */
  lemma UnmatchedNeverTracked(tracked: map<string, Handle>, cs: seq<Container>, images: seq<string>, id: string)
    requires forall i :: 0 <= i < |cs| && cs[i].id == id ==> !Tracks(images, cs[i].image)
    ensures id !in Reconcile(tracked, Listed(cs), images).tracked
    ensures id in tracked ==> id in Reconcile(tracked, Listed(cs), images).stopped
  {
  }

  /** The watchers still running: no tracked handle is cancelled. */
  predicate AllRunning(tracked: map<string, Handle>) {
    forall id :: id in tracked ==> !tracked[id].cancelled
  }

  /** Every poll keeps the tracked handles uncancelled, and cancels every
      handle it removes. */
  lemma ReconcileKeepsRunning(tracked: map<string, Handle>, listing: Listing, images: seq<string>)
    requires AllRunning(tracked)
    ensures AllRunning(Reconcile(tracked, listing, images).tracked)
    ensures forall id :: id in Reconcile(tracked, listing, images).stopped ==>
      Reconcile(tracked, listing, images).stopped[id].cancelled
  {
  }

  /** A poll whose listing matches exactly the tracked IDs is a no-op. */
  lemma ReconcileSettled(tracked: map<string, Handle>, cs: seq<Container>, images: seq<string>)
    requires tracked.Keys == MatchingIds(cs, images)
    ensures Reconcile(tracked, Listed(cs), images) == Poll(tracked, {}, map[], SUCCESS_DELAY_SECS)
  {
    var (admitted, started, alive) := Admit(tracked, cs, images);
    assert admitted == tracked by {
      assert admitted.Keys == tracked.Keys;
      forall id | id in admitted
        ensures admitted[id] == tracked[id]
      {
      }
    }
    assert started == {};
    assert Retained(admitted, alive) == tracked;
    assert Retired(admitted, alive).Keys == {};
  }

  /** Polling twice with the same listing: the second poll starts and
      stops nothing and leaves the map as the first left it. */
  lemma ReconcileIdempotent(tracked: map<string, Handle>, listing: Listing, images: seq<string>)
    ensures var once := Reconcile(tracked, listing, images);
      Reconcile(once.tracked, listing, images) == once.(started := {}, stopped := map[])
  {
    if listing.Listed? {
      ReconcileSettled(Reconcile(tracked, listing, images).tracked, listing.containers, images);
    }
  }

  /** A run of polls, each on the map the previous one left. */
  function Run(tracked: map<string, Handle>, listings: seq<Listing>, images: seq<string>): (r: map<string, Handle>)
    ensures AllRunning(tracked) ==> AllRunning(r)
    ensures forall id :: id in r ==> (id in tracked && r[id] == tracked[id]) || !r[id].cancelled
    decreases |listings|
  {
    if |listings| == 0 then tracked
    else Run(Reconcile(tracked, listings[0], images).tracked, listings[1..], images)
  }

  /** The container list of the latest successful poll, if any. */
  function LastListed(listings: seq<Listing>): Option<seq<Container>>
    decreases |listings|
  {
    if |listings| == 0 then None
    else if listings[|listings| - 1].Listed? then Some(listings[|listings| - 1].containers)
    else LastListed(listings[..|listings| - 1])
  }

  lemma {:induction false} RunSnoc(tracked: map<string, Handle>, listings: seq<Listing>, last: Listing, images: seq<string>)
    ensures Run(tracked, listings + [last], images) == Reconcile(Run(tracked, listings, images), last, images).tracked
    decreases |listings|
  {
    if |listings| > 0 {
      assert (listings + [last])[1..] == listings[1..] + [last];
      RunSnoc(Reconcile(tracked, listings[0], images).tracked, listings[1..], last, images);
    }
  }

  /** After any run of polls the tracked IDs are exactly the matching IDs
      of the latest successful listing; failed polls in between change
      nothing, and a run without a successful poll keeps the initial map. */
  lemma {:induction false} RunTracksLatestListing(tracked: map<string, Handle>, listings: seq<Listing>, images: seq<string>)
    ensures LastListed(listings).None? ==> Run(tracked, listings, images) == tracked
    ensures LastListed(listings).Some? ==>
      Run(tracked, listings, images).Keys == MatchingIds(LastListed(listings).value, images)
    decreases |listings|
  {
    if |listings| > 0 {
      var init := listings[..|listings| - 1];
      var last := listings[|listings| - 1];
      assert listings == init + [last];
      RunSnoc(tracked, init, last, images);
      RunTracksLatestListing(tracked, init, images);
    }
  }

  /** Global shutdown: every remaining watcher is cancelled. */
  function Shutdown(tracked: map<string, Handle>): (r: map<string, Handle>)
    ensures r.Keys == tracked.Keys
    ensures forall id :: id in r ==> r[id].cancelled && r[id].name == tracked[id].name
  {
    map id | id in tracked :: tracked[id].(cancelled := true)
  }
}
