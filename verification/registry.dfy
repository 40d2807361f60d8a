/**
 The rock registry of the blast mine plugin: one map from world position to
 tracked rock, changed by three event handlers. Each handler is a pure
 transition from the map before the event to the map after it.
 */
module Registry {
  import opened Wrappers
  import opened Rocks

  type Registry = map<Pos, Rock>

  /** The id-to-type table (`BlastMineRockType.getRockType`), given as a
      parameter; `None` stands for the `null` of an unrecognised id. */
  type Classifier = int -> Option<RockType>

  /** Every stored rock sits under its own world location, and its type is
      what the classifier says of its object id. */
  ghost predicate Consistent(rocks: Registry, classify: Classifier)
  {
    forall p :: p in rocks ==>
      rocks[p].pos == p && classify(rocks[p].objectId) == Some(rocks[p].kind)
  }

  /** `onGameObjectSpawned`: an object with id `objectId` appears at `pos`
      at instant `now`. */
  function Spawn(rocks: Registry, classify: Classifier, objectId: int, pos: Pos, now: int): (r: Registry)
    // an unrecognised id changes nothing
    ensures classify(objectId).None? ==> r == rocks
    // a recognised id at an untracked position adds exactly that position
    ensures classify(objectId).Some? && pos !in rocks ==>
      && r.Keys == rocks.Keys + {pos}
      && r[pos] == Rock(objectId, pos, classify(objectId).value, now)
    // the same type again keeps the old rock, creation stamp included
    ensures classify(objectId).Some? && pos in rocks && rocks[pos].kind == classify(objectId).value ==>
      r == rocks
    // a different type replaces the rock at that position only
    ensures classify(objectId).Some? && pos in rocks && rocks[pos].kind != classify(objectId).value ==>
      && r.Keys == rocks.Keys
      && r[pos] == Rock(objectId, pos, classify(objectId).value, now)
    // no other position is touched, whatever happens
    ensures forall q :: q != pos ==> (q in r <==> q in rocks)
    ensures forall q :: q != pos && q in r ==> r[q] == rocks[q]
    // afterwards a recognised id's type is the type tracked at `pos`
    ensures classify(objectId).Some? ==> pos in r && r[pos].kind == classify(objectId).value
    ensures Consistent(rocks, classify) ==> Consistent(r, classify)
  {
    match classify(objectId)
    case None => rocks
    case Some(kind) =>
      if pos !in rocks || rocks[pos].kind != kind then
        rocks[pos := Rock(objectId, pos, kind, now)]
      else
        rocks
  }

  /** `onGameStateChanged`: entering `Loading` forgets every rock. */
  function StateChanged(rocks: Registry, state: GameState): (r: Registry)
    ensures state == Loading ==> |r| == 0
    ensures state != Loading ==> r == rocks
  {
    if state == Loading then map[] else rocks
  }

  /** `onGameTick`: drop every rock the eviction rule selects under this
      tick's readings. An empty registry is returned as it is. */
  function Tick(rocks: Registry, clock: Readings): (r: Registry)
    // exactly the expiring rocks leave
    ensures forall p :: p in r <==> p in rocks && !Expires(rocks[p], clock)
    // survivors keep their rock
    ensures forall p :: p in r ==> r[p] == rocks[p]
    ensures r.Keys <= rocks.Keys
    // a rock that leaves had one of its readings at 1
    ensures forall p :: p in rocks && p !in r ==>
      || (clock.remainingTime(rocks[p]) == 1.0 && rocks[p].kind != Normal)
      || (clock.remainingFuse(rocks[p]) == 1.0 && rocks[p].kind == Lit)
    // a Normal rock stays, whatever its readings
    ensures forall p :: p in rocks && rocks[p].kind == Normal ==> p in r
    ensures |rocks| == 0 ==> r == rocks
  {
    if |rocks| == 0 then rocks
    else map p | p in rocks && !Expires(rocks[p], clock) :: rocks[p]
  }

  /** The tick handler as the source runs it: `removeIf` walks the entries
      one by one and deletes each that matches the eviction rule. */
  method EvictExpired(rocks: Registry, clock: Readings) returns (r: Registry)
    ensures forall p :: p in r <==> p in rocks && !Expires(rocks[p], clock)
    ensures forall p :: p in r ==> r[p] == rocks[p]
    ensures r == Tick(rocks, clock)
  {
    r := rocks;
    if |rocks| == 0 {
      return;
    }
    var todo := rocks.Keys;
    while todo != {}
      invariant todo <= rocks.Keys
      invariant forall p :: p in todo ==> p in r
      invariant forall p :: p in r ==> p in rocks && r[p] == rocks[p]
      invariant forall p :: p in rocks && p !in todo ==> (p in r <==> !Expires(rocks[p], clock))
      decreases todo
    {
      var p :| p in todo;
      if Expires(r[p], clock) {
        r := r - {p};
      }
      todo := todo - {p};
    }
    assert r == Tick(rocks, clock);
  }

  /** With this tick's readings held fixed, evicting twice is evicting once. */
  lemma TickIdempotent(rocks: Registry, clock: Readings)
    ensures Tick(Tick(rocks, clock), clock) == Tick(rocks, clock)
  {
  }

  /** Spawning the same object at the same position a second time, at any
      later instant, leaves the registry as the first spawn left it. */
  lemma SpawnIdempotent(rocks: Registry, classify: Classifier, objectId: int, pos: Pos, now: int, later: int)
    ensures Spawn(Spawn(rocks, classify, objectId, pos, now), classify, objectId, pos, later)
         == Spawn(rocks, classify, objectId, pos, now)
  {
  }
}
