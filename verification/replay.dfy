/**
 The registry seen over a whole session: the host delivers events one at a
 time on a single thread, and each handler runs to completion before the
 next event. Replaying a sequence of events is a left fold of the handlers.
 */
module Replay {
  import opened Wrappers
  import opened Rocks
  import opened Registry

  /** The three events the plugin subscribes to. A tick carries the
      readings every rock offers at that tick. */
  datatype Event =
    | ObjectSpawned(objectId: int, pos: Pos, now: int)
    | GameStateChanged(state: GameState)
    | GameTick(clock: Readings)

  /** Dispatch one event to its handler. */
  function Step(rocks: Registry, classify: Classifier, e: Event): Registry
  {
    match e
    case ObjectSpawned(id, pos, now) => Spawn(rocks, classify, id, pos, now)
    case GameStateChanged(state) => StateChanged(rocks, state)
    case GameTick(clock) => Tick(rocks, clock)
  }

  /** The positions at which the events spawn an object the classifier
      recognises. */
  function SpawnedAt(classify: Classifier, evs: seq<Event>): set<Pos>
  {
    if |evs| == 0 then {}
    else
      (if evs[0].ObjectSpawned? && classify(evs[0].objectId).Some? then {evs[0].pos} else {})
      + SpawnedAt(classify, evs[1..])
  }

  /** Replay `evs` in order, starting from `rocks`. */
  function Run(rocks: Registry, classify: Classifier, evs: seq<Event>): (r: Registry)
    // every position tracked afterwards was tracked before or was spawned
    ensures r.Keys <= rocks.Keys + SpawnedAt(classify, evs)
    // each rock stays under its own position with its classified type
    ensures Consistent(rocks, classify) ==> Consistent(r, classify)
    decreases |evs|
  {
    if |evs| == 0 then rocks
    else Run(Step(rocks, classify, evs[0]), classify, evs[1..])
  }

  /** Replaying `a` then `b` is replaying their concatenation. */
  lemma {:induction false} RunAppend(rocks: Registry, classify: Classifier, a: seq<Event>, b: seq<Event>)
    ensures Run(rocks, classify, a + b) == Run(Run(rocks, classify, a), classify, b)
    decreases |a|
  {
    if |a| == 0 {
      assert a + b == b;
    } else {
      assert (a + b)[1..] == a[1..] + b;
      RunAppend(Step(rocks, classify, a[0]), classify, a[1..], b);
    }
  }

  /** After a change to `Loading`, the registry no longer depends on
      anything that came before: it is what the later events build from an
      empty map. */
  lemma {:induction false} RunForgetsBeforeLoading(rocks: Registry, classify: Classifier, evs: seq<Event>, i: nat)
    requires i < |evs|
    requires evs[i].GameStateChanged? && evs[i].state == Loading
    ensures Run(rocks, classify, evs) == Run(map[], classify, evs[i + 1..])
  {
    assert evs == evs[..i] + evs[i..];
    RunAppend(rocks, classify, evs[..i], evs[i..]);
    var mid := Run(rocks, classify, evs[..i]);
    assert evs[i..][1..] == evs[i + 1..];
    assert Step(mid, classify, evs[i]) == map[];
  }

  /** Spawns of ids the classifier does not recognise, however many, leave
      the registry as it was. */
  lemma {:induction false} RunIgnoresUnrecognised(rocks: Registry, classify: Classifier, evs: seq<Event>)
    requires forall k :: 0 <= k < |evs| ==> evs[k].ObjectSpawned? && classify(evs[k].objectId).None?
    ensures Run(rocks, classify, evs) == rocks
    decreases |evs|
  {
    if |evs| > 0 {
      RunIgnoresUnrecognised(rocks, classify, evs[1..]);
    }
  }

  /** A Normal rock survives any run of ticks unchanged. */
  lemma {:induction false} TicksKeepNormal(rocks: Registry, classify: Classifier, evs: seq<Event>, p: Pos)
    requires forall k :: 0 <= k < |evs| ==> evs[k].GameTick?
    requires p in rocks && rocks[p].kind == Normal
    ensures p in Run(rocks, classify, evs)
    ensures Run(rocks, classify, evs)[p] == rocks[p]
    decreases |evs|
  {
    if |evs| > 0 {
      TicksKeepNormal(Step(rocks, classify, evs[0]), classify, evs[1..], p);
    }
  }

  /** A spawn only inserts or replaces, so a position tracked before a run
      of spawns is still tracked after it. */
  lemma {:induction false} SpawnsNeverUntrack(rocks: Registry, classify: Classifier, evs: seq<Event>, p: Pos)
    requires forall k :: 0 <= k < |evs| ==> evs[k].ObjectSpawned?
    requires p in rocks
    ensures p in Run(rocks, classify, evs)
    decreases |evs|
  {
    if |evs| > 0 {
      SpawnsNeverUntrack(Step(rocks, classify, evs[0]), classify, evs[1..], p);
    }
  }
}
