/**
 * Timeline facts of Kubernetes Events: the newest observation per uid of each capture, and
 * which of them are emitted over a whole run of captures.
 */
module Events {
  import opened Json
  import opened Text
  import opened EventKey

  // The uid, count and time of an observation, and everything else it carries.
  datatype Observation = Observation(uid: string, count: nat, at: Instant, body: Json)

  type Latest = map<string, Observation>

  // observation_sort_key: the count first, then the time.
  predicate Newer(a: Observation, b: Observation) {
    a.count > b.count || (a.count == b.count && Stamp(a.at) > Stamp(b.at))
  }

  // ----- the newest observation per uid -----

  function Add(latest: Latest, o: Observation): Latest {
    if o.uid !in latest || Newer(o, latest[o.uid]) then latest[o.uid := o] else latest
  }

  function ByUid(os: seq<Observation>): Latest {
    if os == [] then map[] else Add(ByUid(os[..|os| - 1]), os[|os| - 1])
  }

  // event_observations_by_uid_from_facts
  method ObservationsByUid(os: seq<Observation>) returns (latest: Latest)
    ensures latest == ByUid(os)
  {
    latest := map[];
    for i := 0 to |os|
      invariant latest == ByUid(os[..i])
    {
      var o := os[i];
      assert os[..i + 1][..i] == os[..i];
      if o.uid !in latest || Newer(o, latest[o.uid]) {
        latest := latest[o.uid := o];
      }
    }
    assert os[..|os|] == os;
  }

  ghost predicate Seen(os: seq<Observation>, uid: string) {
    exists o :: o in os && o.uid == uid
  }

  // What the newest map says about one uid.
  ghost predicate NewestFor(os: seq<Observation>, latest: Latest, uid: string) {
    && (uid in latest <==> Seen(os, uid))
    && (uid in latest ==> latest[uid] in os && latest[uid].uid == uid)
    && forall o :: o in os && o.uid == uid ==> uid in latest && !Newer(o, latest[uid])
  }

  lemma AddKeepsNewest(os: seq<Observation>, latest: Latest, o: Observation, uid: string)
    requires NewestFor(os, latest, uid)
    ensures NewestFor(os + [o], Add(latest, o), uid)
  {
  }

  // Exactly the observed uids, each with one of its own observations, none of them newer.
  lemma {:induction false} ByUidIsNewest(os: seq<Observation>, uid: string)
    ensures NewestFor(os, ByUid(os), uid)
    decreases |os|
  {
    if os != [] {
      var front, last := os[..|os| - 1], os[|os| - 1];
      ByUidIsNewest(front, uid);
      AddKeepsNewest(front, ByUid(front), last, uid);
      assert os == front + [last];
    }
  }

  // ----- one capture after another -----

  // A capture is authoritative when it is a complete all-namespace cut, and fresh when it is
  // besides recent enough at the server's snapshot time.
  datatype Capture = Capture(authoritative: bool, recent: bool, observations: seq<Observation>)

  predicate Fresh(c: Capture) {
    c.authoritative && c.recent
  }

  // event_observation_advanced
  predicate Advanced(previous: Latest, o: Observation) {
    o.uid !in previous || o.count > previous[o.uid].count || Stamp(o.at) > Stamp(previous[o.uid].at)
  }

  function Previous(previous: Option<Capture>): Latest {
    if previous.Some? && previous.value.authoritative then ByUid(previous.value.observations) else map[]
  }

  predicate Emits(previous: Option<Capture>, current: Capture, uid: string) {
    && Fresh(current) && uid in ByUid(current.observations)
    && Advanced(Previous(previous), ByUid(current.observations)[uid])
  }

  method Pick(latest: Latest, uids: seq<string>) returns (picked: seq<Observation>)
    requires forall uid :: uid in uids ==> uid in latest
    ensures |picked| == |uids| && forall i :: 0 <= i < |uids| ==> picked[i] == latest[uids[i]]
  {
    picked := seq(|uids|, i requires 0 <= i < |uids| => latest[uids[i]]);
  }

  // kubernetes_event_fact_timeline_events: the advanced observations, by ascending uid.
  method TimelineEvents(previous: Option<Capture>, current: Capture) returns (uids: seq<string>, emitted: seq<Observation>)
    ensures |uids| == |emitted| && Ascending(uids)
    ensures forall uid :: uid in uids <==> Emits(previous, current, uid)
    ensures forall i :: 0 <= i < |uids| ==> uids[i] in ByUid(current.observations) && emitted[i] == ByUid(current.observations)[uids[i]]
  {
    uids, emitted := [], [];
    if !Fresh(current) {
      return;
    }
    var before: Latest := map[];
    if previous.Some? && previous.value.authoritative {
      before := ObservationsByUid(previous.value.observations);
    }
    var now := ObservationsByUid(current.observations);
    forall uid ensures NewestFor(current.observations, now, uid) { ByUidIsNewest(current.observations, uid); }
    uids := Sorted(set uid | uid in now && Advanced(before, now[uid]));
    emitted := Pick(now, uids);
  }

  // ----- the stored predecessor -----

  // Only so many stored captures are looked at for the newest authoritative one.
  const CANDIDATES := 128

  // The newest authoritative capture among the last `limit` stored ones.
  function Newest(stored: seq<Capture>, limit: nat): (at: Option<nat>)
    ensures at.Some? ==> at.value < |stored| && stored[at.value].authoritative && |stored| - limit <= at.value
    ensures at.Some? ==> forall k :: at.value < k < |stored| ==> !stored[k].authoritative
    ensures at.None? ==> forall k :: 0 <= k < |stored| && |stored| - limit <= k ==> !stored[k].authoritative
  {
    if stored == [] || limit == 0 then None
    else if stored[|stored| - 1].authoritative then Some(|stored| - 1)
    else Newest(stored[..|stored| - 1], limit - 1)
  }

  // latest_complete_kubernetes_event_batch
  method LatestComplete(stored: seq<Capture>) returns (at: Option<nat>)
    ensures at == Newest(stored, CANDIDATES)
  {
    var left, limit := |stored|, CANDIDATES;
    assert stored[..left] == stored;
    while left > 0 && limit > 0
      invariant 0 <= left <= |stored| && limit >= 0
      invariant Newest(stored, CANDIDATES) == Newest(stored[..left], limit)
      decreases limit
    {
      if stored[left - 1].authoritative {
        return Some(left - 1);
      }
      assert stored[..left][..left - 1] == stored[..left - 1];
      left, limit := left - 1, limit - 1;
    }
    return None;
  }

  // ----- one uid over a whole run -----

  // The count and time of a uid in a capture.
  datatype Point = Point(count: nat, time: nat)

  // What a capture says about a uid: nothing if it is not authoritative.
  datatype Cell = Incomplete | Complete(point: Option<Point>)

  type Track = seq<Cell>

  predicate Holds(c: Cell) {
    c.Complete? && c.point.Some?
  }

  // Over the complete captures a seen uid stays present, and neither its count nor its time
  // ever decreases.
  ghost predicate Rising(track: Track) {
    forall i, j :: 0 <= i < j < |track| && Holds(track[i]) && track[j].Complete? ==>
      && track[j].point.Some?
      && track[i].point.value.count <= track[j].point.value.count
      && track[i].point.value.time <= track[j].point.value.time
  }

  // The predecessor of a capture as the store finds it.
  ghost predicate Precedes(track: Track, i: nat, previous: Option<nat>)
    requires i < |track|
  {
    match previous
    case Some(p) => p < i <= p + CANDIDATES && track[p].Complete? && forall k :: p < k < i ==> track[k].Incomplete?
    case None => forall k :: 0 <= k < i && i <= k + CANDIDATES ==> track[k].Incomplete?
  }

  // The capture holds another observation of the uid than its predecessor, or has none.
  ghost predicate Changes(track: Track, i: nat, previous: Option<nat>)
    requires i < |track| && Precedes(track, i, previous)
  {
    Holds(track[i]) && (previous.None? || track[previous.value] != track[i])
  }

  // The first capture that holds the observation capture i holds.
  ghost predicate First(track: Track, i: nat, first: nat)
    requires i < |track|
  {
    first <= i && track[first] == track[i] && forall k :: 0 <= k < first ==> track[k] != track[i]
  }

  lemma FirstExists(track: Track, i: nat) returns (first: nat)
    requires i < |track|
    ensures First(track, i, first)
  {
    first := 0;
    while track[first] != track[i]
      invariant first <= i && forall k :: 0 <= k < first ==> track[k] != track[i]
      decreases i - first
    {
      first := first + 1;
    }
  }

  // An observation held at both ends of a stretch is held by every complete capture in it.
  lemma HeldBetween(track: Track, i: nat, k: nat, j: nat)
    requires Rising(track) && i < k < j < |track| && Holds(track[i]) && track[i] == track[j] && track[k].Complete?
    ensures track[k] == track[j]
  {
  }

  // A capture holding an observation changes to it exactly if it is the first to hold it, or no
  // complete capture is left among the candidates.
  lemma ChangesIff(track: Track, i: nat, first: nat, j: nat, previous: Option<nat>)
    requires Rising(track) && i < |track| && Holds(track[i]) && First(track, i, first)
    requires j < |track| && track[j] == track[i] && Precedes(track, j, previous)
    ensures Changes(track, j, previous) <==> j == first || previous.None?
  {
    if j != first && previous.Some? {
      var p := previous.value;
      assert first < j && track[first].Complete?;
      assert p >= first;
      if p > first {
        HeldBetween(track, first, p, j);
      }
    }
  }

  // ----- a whole run of captures -----

  function At(run: seq<Capture>, i: nat): Latest
    requires i < |run|
  {
    ByUid(run[i].observations)
  }

  function PointOf(latest: Latest, uid: string): Option<Point> {
    if uid in latest then Some(Point(latest[uid].count, Stamp(latest[uid].at))) else None
  }

  function CellOf(c: Capture, uid: string): Cell {
    if c.authoritative then Complete(PointOf(ByUid(c.observations), uid)) else Incomplete
  }

  function TrackOf(run: seq<Capture>, uid: string): Track {
    seq(|run|, i requires 0 <= i < |run| => CellOf(run[i], uid))
  }

  function PreviousAt(run: seq<Capture>, i: nat): (previous: Option<nat>)
    requires i < |run|
    ensures previous.Some? ==> previous.value < i
  {
    Newest(run[..i], CANDIDATES)
  }

  // Each capture is compared with the one the store finds before it.
  predicate EmittedAt(run: seq<Capture>, i: nat, uid: string)
    requires i < |run|
  {
    var previous := PreviousAt(run, i);
    Emits(if previous.None? then None else Some(run[previous.value]), run[i], uid)
  }

  lemma PreviousPrecedes(run: seq<Capture>, i: nat, uid: string)
    requires i < |run|
    ensures Precedes(TrackOf(run, uid), i, PreviousAt(run, i))
  {
  }

  // Captures with calendar times in which the uid rises.
  ghost predicate Monotone(run: seq<Capture>, uid: string) {
    && (forall i, o :: 0 <= i < |run| && o in run[i].observations ==> Valid(o.at))
    && Rising(TrackOf(run, uid))
  }

  function KeyAt(run: seq<Capture>, i: nat, uid: string): string
    requires i < |run| && uid in At(run, i)
  {
    SourceKey(uid, At(run, i)[uid].count, At(run, i)[uid].at)
  }

  // The source keys of a uid in two captures are equal exactly when its count and time are.
  lemma SameKeyIff(run: seq<Capture>, i: nat, j: nat, uid: string)
    requires Monotone(run, uid) && i < |run| && j < |run| && uid in At(run, i) && uid in At(run, j)
    ensures KeyAt(run, i, uid) == KeyAt(run, j, uid) <==> PointOf(At(run, i), uid) == PointOf(At(run, j), uid)
  {
    ByUidIsNewest(run[i].observations, uid);
    ByUidIsNewest(run[j].observations, uid);
    var a, b := At(run, i)[uid], At(run, j)[uid];
    assert Valid(a.at) && Valid(b.at);
    if KeyAt(run, i, uid) == KeyAt(run, j, uid) {
      SourceKeyInjective(uid, a.count, a.at, uid, b.count, b.at);
    }
    if Stamp(a.at) == Stamp(b.at) {
      StampInjective(a.at, b.at);
    }
  }

  // From one capture to the next, an observation advances exactly when it differs.
  lemma AdvancedIff(before: Latest, now: Latest, uid: string)
    requires uid in now && now[uid].uid == uid
    requires uid in before ==> before[uid].count <= now[uid].count && Stamp(before[uid].at) <= Stamp(now[uid].at)
    ensures Advanced(before, now[uid]) <==> PointOf(before, uid) != PointOf(now, uid)
  {
  }

  lemma RisesTo(run: seq<Capture>, p: nat, i: nat, uid: string)
    requires Monotone(run, uid) && p < i < |run| && run[p].authoritative && run[i].authoritative && uid in At(run, p)
    ensures uid in At(run, i) && At(run, p)[uid].count <= At(run, i)[uid].count
    ensures Stamp(At(run, p)[uid].at) <= Stamp(At(run, i)[uid].at)
  {
    var track := TrackOf(run, uid);
    assert track[p] == CellOf(run[p], uid) && track[i] == CellOf(run[i], uid) && Holds(track[p]);
  }

  // A capture emits a uid exactly when it is fresh and changes the uid's observation.
  lemma EmittedIff(run: seq<Capture>, i: nat, uid: string)
    requires Monotone(run, uid) && i < |run| && Precedes(TrackOf(run, uid), i, PreviousAt(run, i))
    ensures EmittedAt(run, i, uid) <==> run[i].recent && Changes(TrackOf(run, uid), i, PreviousAt(run, i))
  {
    ByUidIsNewest(run[i].observations, uid);
    var previous, track := PreviousAt(run, i), TrackOf(run, uid);
    assert track[i] == CellOf(run[i], uid);
    if previous.Some? && run[i].authoritative && uid in At(run, i) {
      var p := previous.value;
      assert track[p] == CellOf(run[p], uid) && run[p].authoritative;
      if uid in At(run, p) {
        RisesTo(run, p, i, uid);
      }
      AdvancedIff(At(run, p), At(run, i), uid);
    }
  }

  // A timeline event of the uid with that source key.
  ghost predicate EmitsKey(run: seq<Capture>, j: nat, uid: string, key: string)
    requires j < |run|
  {
    uid in At(run, j) && EmittedAt(run, j, uid) && KeyAt(run, j, uid) == key
  }

  // The capture is authoritative and holds the observation capture i holds.
  predicate Repeats(run: seq<Capture>, i: nat, j: nat, uid: string)
    requires i < |run| && j < |run|
  {
    run[j].authoritative && PointOf(At(run, j), uid) == PointOf(At(run, i), uid)
  }

  // Over any such run, with incomplete captures anywhere, the newest observation of capture i
  // is emitted exactly by the recent captures that hold it and are the first to do so or come
  // after so many incomplete ones that no predecessor is found.
  lemma EmittedExactly(run: seq<Capture>, i: nat, uid: string, first: nat, j: nat)
    requires Monotone(run, uid) && i < |run| && run[i].authoritative && uid in At(run, i)
    requires First(TrackOf(run, uid), i, first) && j < |run|
    ensures EmitsKey(run, j, uid, KeyAt(run, i, uid)) <==>
            run[j].recent && Repeats(run, i, j, uid) && (j == first || PreviousAt(run, j).None?)
  {
    var track := TrackOf(run, uid);
    assert track[i] == CellOf(run[i], uid) && track[j] == CellOf(run[j], uid);
    PreviousPrecedes(run, j, uid);
    EmittedIff(run, j, uid);
    if uid in At(run, j) {
      SameKeyIff(run, j, i, uid);
    }
    if Repeats(run, i, j, uid) {
      ChangesIff(track, i, first, j, PreviousAt(run, j));
    }
  }

  // No later capture that repeats the observation is cut off from its predecessors.
  ghost predicate NeverCutOff(run: seq<Capture>, i: nat, uid: string, first: nat)
    requires i < |run|
  {
    forall j :: first < j < |run| && Repeats(run, i, j, uid) ==> PreviousAt(run, j).Some?
  }

  // With every authoritative capture recent, the source key of each newest observation is
  // emitted, and exactly once if and only if no later capture that repeats it comes right after
  // as many incomplete captures as there are candidates.
  lemma ExactlyOnceIff(run: seq<Capture>, i: nat, uid: string, first: nat)
    requires Monotone(run, uid) && i < |run| && run[i].authoritative && uid in At(run, i)
    requires First(TrackOf(run, uid), i, first)
    requires forall k :: 0 <= k < |run| && run[k].authoritative ==> run[k].recent
    ensures EmitsKey(run, first, uid, KeyAt(run, i, uid))
    ensures (forall j :: 0 <= j < |run| && j != first ==> !EmitsKey(run, j, uid, KeyAt(run, i, uid))) <==> NeverCutOff(run, i, uid, first)
  {
    var track := TrackOf(run, uid);
    assert track[i] == CellOf(run[i], uid) && track[first] == CellOf(run[first], uid);
    forall j | 0 <= j < |run|
      ensures EmitsKey(run, j, uid, KeyAt(run, i, uid)) <==> Repeats(run, i, j, uid) && (j == first || PreviousAt(run, j).None?)
      ensures Repeats(run, i, j, uid) ==> first <= j
    {
      EmittedExactly(run, i, uid, first, j);
      assert track[j] == CellOf(run[j], uid);
    }
  }

  // In particular over runs of fresh authoritative captures each is emitted exactly once.
  lemma ExactlyOnce(run: seq<Capture>, i: nat, uid: string) returns (when: nat)
    requires Monotone(run, uid) && i < |run| && uid in At(run, i)
    requires forall k :: 0 <= k < |run| ==> Fresh(run[k])
    ensures when <= i && EmitsKey(run, when, uid, KeyAt(run, i, uid))
    ensures forall j :: 0 <= j < |run| && j != when ==> !EmitsKey(run, j, uid, KeyAt(run, i, uid))
  {
    when := FirstExists(TrackOf(run, uid), i);
    forall j | when < j < |run|
      ensures PreviousAt(run, j).Some?
    {
      assert run[..j][j - 1].authoritative;
    }
    ExactlyOnceIff(run, i, uid, when);
  }

  // An observation is never emitted exactly when the first capture that holds it is not recent,
  // and neither is any later one that repeats it without finding a predecessor.
  lemma MissedIff(run: seq<Capture>, i: nat, uid: string, first: nat)
    requires Monotone(run, uid) && i < |run| && run[i].authoritative && uid in At(run, i)
    requires First(TrackOf(run, uid), i, first)
    ensures (forall j :: 0 <= j < |run| ==> !EmitsKey(run, j, uid, KeyAt(run, i, uid))) <==>
            !run[first].recent && forall j :: first < j < |run| && Repeats(run, i, j, uid) && PreviousAt(run, j).None? ==> !run[j].recent
  {
    var track := TrackOf(run, uid);
    assert track[i] == CellOf(run[i], uid) && track[first] == CellOf(run[first], uid);
    forall j | 0 <= j < |run|
      ensures EmitsKey(run, j, uid, KeyAt(run, i, uid)) <==>
              run[j].recent && Repeats(run, i, j, uid) && (j == first || PreviousAt(run, j).None?)
      ensures Repeats(run, i, j, uid) ==> first <= j
    {
      EmittedExactly(run, i, uid, first, j);
      assert track[j] == CellOf(run[j], uid);
    }
  }

  // ----- the failing cases -----

  function Of(o: Observation): Capture {
    Capture(true, true, [o])
  }

  lemma OnlyObservation(o: Observation)
    ensures ByUid([o]) == map[o.uid := o]
  {
    assert [o][..0] == [];
  }

  // An authoritative capture that is not recent, then any number of recent ones with the same
  // observation: it is never emitted.
  function StaleFirst(o: Observation, later: nat): seq<Capture> {
    [Capture(true, false, [o])] + seq(later, i => Of(o))
  }

  lemma StaleFirstIsMissed(o: Observation, later: nat, j: nat)
    requires j <= later
    ensures !EmittedAt(StaleFirst(o, later), j, o.uid)
  {
    var run := StaleFirst(o, later);
    OnlyObservation(o);
    if j > 0 {
      assert run[..j][j - 1].authoritative;
      assert PreviousAt(run, j) == Some(j - 1);
      assert run[j - 1].observations == [o] && run[j] == Of(o);
    }
  }

  // An observation, then as many incomplete captures as there are candidates, then the same
  // observation: it is emitted again under its old key.
  function AfterGap(o: Observation): seq<Capture> {
    [Of(o)] + seq(CANDIDATES, i => Capture(false, false, [])) + [Of(o)]
  }

  lemma GapEmitsAgain(o: Observation)
    ensures var run := AfterGap(o);
            && o.uid in At(run, 0) && EmitsKey(run, 0, o.uid, KeyAt(run, 0, o.uid))
            && EmitsKey(run, CANDIDATES + 1, o.uid, KeyAt(run, 0, o.uid))
  {
    var run := AfterGap(o);
    OnlyObservation(o);
    assert run[0] == Of(o) && run[CANDIDATES + 1] == Of(o);
    assert forall k :: 1 <= k <= CANDIDATES ==> !run[k].authoritative;
    assert PreviousAt(run, CANDIDATES + 1).None?;
  }

  // The condition that a seen uid stays present is needed: one that is missing from a complete
  // capture and comes back is emitted again with the same source key.
  lemma ReturningIsEmittedAgain(o: Observation)
    ensures var run := [Of(o), Capture(true, true, []), Of(o)];
            && o.uid in At(run, 0) && EmitsKey(run, 0, o.uid, KeyAt(run, 0, o.uid)) && EmitsKey(run, 2, o.uid, KeyAt(run, 0, o.uid))
            && !Rising(TrackOf(run, o.uid))
  {
    var run := [Of(o), Capture(true, true, []), Of(o)];
    OnlyObservation(o);
    assert run[..2][1].authoritative;
    assert PreviousAt(run, 2) == Some(1) && PreviousAt(run, 0) == None;
    var track := TrackOf(run, o.uid);
    assert Holds(track[0]) && track[1] == Complete(None);
  }
}
