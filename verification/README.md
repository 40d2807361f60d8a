# Blast Mine rock registry

A Dafny model of the rock registry in the RuneLite "Blast Mine" plugin.
The plugin keeps one map from world position to tracked rock. Three event
handlers change it:

- a spawned game object whose id is a blast mine rock is inserted at its
  world location. It replaces the rock already there only when the type
  differs;
- a change of game state to `LOADING` clears the map;
- each game tick removes the rocks whose relative remaining time reads
  exactly 1 (any type but `NORMAL`), or whose relative remaining fuse time
  reads exactly 1 (type `LIT`).

Each handler is a pure function from the map before the event to the map
after it (`Registry.Spawn`, `Registry.StateChanged`, `Registry.Tick`).
`Registry.EvictExpired` walks the entries one at a time, as `removeIf`
does, and is proved equal to `Registry.Tick`. `Replay.Run` folds the
handlers over a sequence of events. The lemmas in `Replay` state what holds
across whole sessions.

Files:

- `rocks.dfy`: `Wrappers.Option`, and the entities in module `Rocks`:
  position, rock type, game state, rock, the per-tick readings, and the
  eviction rule `Expires`.
- `registry.dfy`: module `Registry`, holding the three handlers and their
  properties.
- `replay.dfy`: module `Replay`, holding event dispatch and the properties
  of event sequences.

Two inputs come from outside the plugin file, and the model takes both as
parameters:

- The id-to-type table `BlastMineRockType.getRockType` is a `Classifier`
  (`int -> Option<RockType>`). Its `null` result is `None`.
- The readings `getRemainingTimeRelative` and `getRemainingFuseTimeRelative`
  are a `Readings` value with two functions `Rock -> real`. A tick event
  supplies one. Java's `double == 1` test is kept literally as `== 1.0`.

The rock's creation instant (`Instant.now()` in `BlastMineRock`) is an
abstract integer stamp, `createdAt`, passed in with each spawn.

## Model

| member | source | states |
|---|---|---|
| Registry.Spawn | runelite-client/src/main/java/net/runelite/client/plugins/blastmine/BlastMinePlugin.java:118-134 | An unrecognised id leaves the map unchanged. A recognised id at an untracked position adds exactly that position, mapped to the new rock. The same type at a tracked position keeps the old rock, including its creation stamp. A different type replaces the rock at that position and keeps the key set. No other position changes. Afterwards the tracked type at the position is the classified type. Consistency (each rock stored under its own location, with its classified type) is preserved. |
| Registry.StateChanged | runelite-client/src/main/java/net/runelite/client/plugins/blastmine/BlastMinePlugin.java:137-143 | A change to `LOADING` leaves the map empty. Any other state leaves it unchanged. |
| Registry.Tick | runelite-client/src/main/java/net/runelite/client/plugins/blastmine/BlastMinePlugin.java:146-156 | A position survives exactly when its rock does not satisfy the eviction rule. Survivors keep their rock. The key set only shrinks. Each evicted rock had remaining time 1 and type other than `NORMAL`, or remaining fuse 1 and type `LIT`. A `NORMAL` rock is never evicted. An empty map is returned unchanged. |
| Registry.EvictExpired | runelite-client/src/main/java/net/runelite/client/plugins/blastmine/BlastMinePlugin.java:148-155 | Removing matching entries one by one, as `removeIf` does, removes exactly the expiring rocks and keeps every other entry. The result equals `Tick`. |
| Registry.TickIdempotent | runelite-client/src/main/java/net/runelite/client/plugins/blastmine/BlastMinePlugin.java:153-155 | With the readings held fixed, a second eviction pass changes nothing. |
| Registry.SpawnIdempotent | runelite-client/src/main/java/net/runelite/client/plugins/blastmine/BlastMinePlugin.java:128-133 | Spawning the same object at the same position again, at any later instant, leaves the map as the first spawn left it. The rock is not refreshed. |
| Replay.Run | runelite-client/src/main/java/net/runelite/client/plugins/blastmine/BlastMinePlugin.java:59 | After any sequence of events, every tracked position was tracked at the start or was the location of a recognised spawn. Consistency of the map is preserved across every event. |
| Replay.RunAppend | runelite-client/src/main/java/net/runelite/client/plugins/blastmine/BlastMinePlugin.java:117-156 | Replaying two event sequences one after the other is the same as replaying their concatenation. |
| Replay.RunForgetsBeforeLoading | runelite-client/src/main/java/net/runelite/client/plugins/blastmine/BlastMinePlugin.java:139-142 | After a change to `LOADING`, the registry is what the later events build from an empty map. Nothing earlier matters. |
| Replay.RunIgnoresUnrecognised | runelite-client/src/main/java/net/runelite/client/plugins/blastmine/BlastMinePlugin.java:121-125 | Any number of spawns with unrecognised ids leave the map unchanged. |
| Replay.TicksKeepNormal | runelite-client/src/main/java/net/runelite/client/plugins/blastmine/BlastMinePlugin.java:153-155 | A `NORMAL` rock survives any number of ticks, whatever the readings, and keeps its rock. |
| Replay.SpawnsNeverUntrack | runelite-client/src/main/java/net/runelite/client/plugins/blastmine/BlastMinePlugin.java:130-133 | Spawns never remove a tracked position. They only insert or replace. |

## Left out

- `startUp` and `shutDown` add and remove the two overlays and un-hide the
  `BLAST_MINE` widget. They are side effects on the host UI with no
  registry logic.
- `updateConfig` and the mirrored config fields (booleans and
  `java.awt.Color` values) are copied from the injected config provider.
  There is nothing to verify in them.
- The Guice wiring (`@Inject`, `@Provides getConfig`) and the event bus
  `@Subscribe` dispatch are framework plumbing. `Replay.Step` calls each
  handler directly.
- How `BlastMineRock` computes its remaining-time readings from the clock
  is not part of this model. The readings are opaque per-rock values, and
  only the `== 1` test on them is modelled.
- The contents of the id-to-type table in `BlastMineRockType` are not part
  of this model. The table is a parameter.
- `BlastMineRockType` and `GameState` are not part of this model as source
  either. Their constructor lists follow the upstream enums (`NORMAL`,
  `CHISELED`, `LOADED`, `LIT`, `EXPLODED`; the client's game states). The
  registry only ever distinguishes `NORMAL`, `LIT` and `LOADING`.
- A rock's game object is reduced to its id and world location. Java's
  `HashMap` is an immutable `map`, since the plugin never shares it across
  threads.
