/** The plain records the services exchange (internal/types/types.go). */
module Types {

  /** Live player data kept by the profile service. */
  datatype PlayerData = PlayerData(
    playerId: string,
    level: int,
    energy: int,
    lastUpdateTime: int)

  /** Historic results of one player on one level; also used as the delta
      that the gameplay service asks the stats service to fold in. */
  datatype PlayerLevelStats = PlayerLevelStats(
    level: int,
    winCount: int,
    lossCount: int,
    bestScore: int)

  /** All level stats of one player, in the order they were first recorded. */
  datatype PlayerStats = PlayerStats(levelStats: seq<PlayerLevelStats>)

  /** The update the gameplay service sends to the profile service:
      an energy delta and the level the player should be on afterwards. */
  datatype ProfileUpdate = ProfileUpdate(energyDelta: int, newLevel: int)
}
