/** The game configuration served by the config service
    (internal/config/config.go). */
module Config {

  datatype LevelConfig = LevelConfig(
    level: int,
    energyCost: int,
    totalRolls: int,
    target: int,
    energyReward: int)

  datatype GameConfig = GameConfig(
    levels: seq<LevelConfig>,
    defaultLevel: int,
    maxEnergy: int,
    energyRegenSeconds: int,
    defaultLevelScore: int)

  /** The constant table built by `NewConfigServer`. */
  const Table: GameConfig := GameConfig(
    [ LevelConfig(1, 3, 2, 6, 5),
      LevelConfig(2, 3, 3, 4, 5),
      LevelConfig(3, 4, 4, 2, 6),
      LevelConfig(4, 4, 3, 1, 6),
      LevelConfig(5, 4, 2, 5, 6),
      LevelConfig(6, 5, 4, 3, 7),
      LevelConfig(7, 5, 3, 4, 7),
      LevelConfig(8, 5, 2, 1, 7),
      LevelConfig(9, 6, 4, 2, 8),
      LevelConfig(10, 6, 3, 6, 8) ],
    1, 50, 5, 99)

  /** The entry at index i describes level i+1, so `levels[level-1]` is the
      configuration of `level`. */
  ghost predicate Positional(cfg: GameConfig) {
    forall i :: 0 <= i < |cfg.levels| ==> cfg.levels[i].level == i + 1
  }

  /** Every level costs energy, allows at least two rolls, aims at a face of
      a six-sided die, and pays a positive reward. */
  ghost predicate SaneLevels(cfg: GameConfig) {
    forall i :: 0 <= i < |cfg.levels| ==>
      && cfg.levels[i].energyCost > 0
      && cfg.levels[i].totalRolls >= 2
      && 1 <= cfg.levels[i].target <= 6
      && cfg.levels[i].energyReward > 0
  }

  lemma TableShape()
    ensures |Table.levels| == 10
    ensures Positional(Table)
    ensures SaneLevels(Table)
  {
  }

  lemma TableDefaults()
    ensures Table.defaultLevel == 1
    ensures Table.maxEnergy == 50
    ensures Table.energyRegenSeconds == 5
    ensures Table.defaultLevelScore == 99
  {
  }
}
