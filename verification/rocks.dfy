/** Optional values, standing in for the `null` a Java lookup returns. */
module Wrappers {

  datatype Option<+T> = None | Some(value: T)
}

/**
 The entities the blast mine plugin tracks: world positions, rock types,
 rocks, and the two per-rock time readings the tick handler consults.
 */
module Rocks {

  /** A world position (`WorldPoint`): x, y and plane. */
  datatype Pos = Pos(x: int, y: int, plane: int)

  /** The closed set of rock types (`BlastMineRockType`). The registry only
      ever tells `Normal` and `Lit` apart from the rest. */
  datatype RockType = Normal | Chiseled | Loaded | Lit | Exploded

  /** The game states the client reports (`GameState`); only `Loading`
      matters to the registry. */
  datatype GameState =
    | Unknown
    | Starting
    | LoginScreen
    | LoginScreenAuthenticator
    | LoggingIn
    | Loading
    | LoggedIn
    | ConnectionLost
    | Hopping

  /** A tracked rock (`BlastMineRock`): the game object it was built from
      (its id and world location), its classified type, and the instant it
      was created, kept as an abstract stamp. */
  datatype Rock = Rock(objectId: int, pos: Pos, kind: RockType, createdAt: int)

  /** The two readings a rock offers at one tick: its relative remaining time
      and its relative remaining fuse time (Java doubles). How they are
      computed from the clock is outside the model; they are supplied whole. */
  datatype Readings = Readings(remainingTime: Rock -> real, remainingFuse: Rock -> real)

  /** The eviction rule of the tick handler, with its literal `== 1` tests. */
  predicate Expires(rock: Rock, clock: Readings)
  {
    || (clock.remainingTime(rock) == 1.0 && rock.kind != Normal)
    || (clock.remainingFuse(rock) == 1.0 && rock.kind == Lit)
  }
}
