/** The decisions inside the gameplay service's handlers
    (internal/gameplay/gameplay.go): admission to a level and the
    adjudication of a finished level. The calls to the profile and stats
    services are not modelled as calls: the fetched player is a parameter
    (`None` when the profile lookup failed), and the results are the update
    and the stats delta the handler would send. */
module Gameplay {
  import opened Results
  import opened Types
  import opened Config
  import Stats

  datatype GameplayError =
    | InvalidLevel        // the level is out of range or still locked (400)
    | PlayerUnavailable   // the profile lookup failed (400)
    | InvalidRolls        // the rolls are missing or too many (400)
    | IndexOutOfRange     // Levels[-1] or Rolls[-1]: panics in Go

  /** Admission to a level: either refused, with the player as fetched, or
      granted, with the update to ask of the profile service. */
  datatype EntryDecision = Denied(player: PlayerData) | Granted(update: ProfileUpdate)

  /** The `LevelResult` part of the response. */
  datatype LevelResult = LevelResult(won: bool, energyReward: int, unlockedNewLevel: bool)

  /** Everything the result handler decides: the result shown to the
      player, the profile update and the stats delta. */
  datatype Adjudication = Adjudication(result: LevelResult, update: ProfileUpdate, statsDelta: PlayerLevelStats)

  // ---------------------------------------------------------------------
  // Level entry

  /** `HandleEnterLevelRequest` as written: the range guard admits level 0,
      which then indexes `Levels[-1]`. */
  function EnterLevelAsWritten(cfg: GameConfig, level: int, player: Option<PlayerData>): (r: Result<EntryDecision, GameplayError>)
    ensures r == Err(InvalidLevel) <==> level < 0 || level > |cfg.levels|
    ensures r == Err(IndexOutOfRange) <==> level == 0 && player.Some?
  {
    if level < 0 || level > |cfg.levels| then Err(InvalidLevel)
    else if player.None? then Err(PlayerUnavailable)
    else if level == 0 then Err(IndexOutOfRange)
    else
      var p := player.value;
      var cost := cfg.levels[level - 1].energyCost;
      if p.level >= level && p.energy >= cost then Ok(Granted(ProfileUpdate(-cost, p.level)))
      else Ok(Denied(p))
  }

  /** Level entry with the range guard starting at level 1, which is what
      the handler's tests expect of level 0. The player may enter when the
      level is unlocked and the energy covers the level's cost; entering
      costs that energy and keeps the level. */
  function EnterLevel(cfg: GameConfig, level: int, player: Option<PlayerData>): (r: Result<EntryDecision, GameplayError>)
    ensures r == Err(InvalidLevel) <==> level < 1 || level > |cfg.levels|
    ensures r == Err(PlayerUnavailable) <==> 1 <= level <= |cfg.levels| && player.None?
    ensures r.Ok? <==> 1 <= level <= |cfg.levels| && player.Some?
    ensures r.Ok? ==>
      var p := player.value;
      var cost := cfg.levels[level - 1].energyCost;
      && (r.value.Granted? <==> p.level >= level && p.energy >= cost)
      && (r.value.Granted? ==> r.value.update == ProfileUpdate(-cost, p.level))
      && (r.value.Denied? ==> r.value.player == p)
  {
    if level < 1 || level > |cfg.levels| then Err(InvalidLevel)
    else if player.None? then Err(PlayerUnavailable)
    else
      var p := player.value;
      var cost := cfg.levels[level - 1].energyCost;
      if p.level >= level && p.energy >= cost then Ok(Granted(ProfileUpdate(-cost, p.level)))
      else Ok(Denied(p))
  }

  /** The two entry rules differ only at level 0, which the source lets
      through to the profile lookup and then to a panic instead of refusing. */
  lemma EnterLevelCorrection(cfg: GameConfig, level: int, player: Option<PlayerData>)
    ensures level != 0 ==> EnterLevelAsWritten(cfg, level, player) == EnterLevel(cfg, level, player)
    ensures level == 0 ==> EnterLevel(cfg, level, player) == Err(InvalidLevel)
    ensures level == 0 ==> EnterLevelAsWritten(cfg, level, player)
                           == (if player.Some? then Err(IndexOutOfRange) else Err(PlayerUnavailable))
  {
  }

  /** Admission never drives energy below zero and never changes the level. */
  lemma EntryKeepsEnergyNonNegative(cfg: GameConfig, level: int, p: PlayerData)
    requires EnterLevel(cfg, level, Some(p)).Ok? && EnterLevel(cfg, level, Some(p)).value.Granted?
    ensures var u := EnterLevel(cfg, level, Some(p)).value.update;
            p.energy + u.energyDelta >= 0 && u.newLevel == p.level
  {
  }

  // ---------------------------------------------------------------------
  // Level results

  /** `HandleLevelResultRequest` as written: level 0 indexes `Levels[-1]`
      and an empty (non-nil) roll list indexes `Rolls[-1]`. */
  function AdjudicateAsWritten(cfg: GameConfig, level: int, rolls: Option<seq<int>>, player: Option<PlayerData>): (r: Result<Adjudication, GameplayError>)
    ensures player.Some? && player.value.level >= 0 && level == 0 ==> r == Err(IndexOutOfRange)
    ensures && player.Some? && 1 <= level <= |cfg.levels| && level <= player.value.level
            && cfg.levels[level - 1].totalRolls >= 0 && rolls == Some([])
            ==> r == Err(IndexOutOfRange)
  {
    if player.None? then Err(PlayerUnavailable)
    else
      var p := player.value;
      if level < 0 || level > |cfg.levels| || level > p.level then Err(InvalidLevel)
      else if level == 0 then Err(IndexOutOfRange)
      else
        var lc := cfg.levels[level - 1];
        if rolls.None? || |rolls.value| > lc.totalRolls then Err(InvalidRolls)
        else if |rolls.value| == 0 then Err(IndexOutOfRange)
        else Ok(Judge(cfg, level, rolls.value, p))
  }

  /** The adjudication of a valid request: won when the last roll hits the
      target; the next level unlocks when the player won their top level and
      it is not the last one. */
  function Judge(cfg: GameConfig, level: int, rolls: seq<int>, p: PlayerData): (a: Adjudication)
    requires 1 <= level <= |cfg.levels| && rolls != []
  {
    var lc := cfg.levels[level - 1];
    var won := rolls[|rolls| - 1] == lc.target;
    var unlocked := won && level == p.level && level < |cfg.levels|;
    var energyDelta := if won then lc.energyReward else 0;
    var newLevel := if unlocked then p.level + 1 else p.level;
    var delta := if won then PlayerLevelStats(level, 1, 0, |rolls|)
                 else PlayerLevelStats(level, 0, 1, cfg.defaultLevelScore);
    Adjudication(LevelResult(won, energyDelta, unlocked), ProfileUpdate(energyDelta, newLevel), delta)
  }

  /** Level results with level 0 refused like any other invalid level and
      an empty roll list refused like a missing one. */
  function Adjudicate(cfg: GameConfig, level: int, rolls: Option<seq<int>>, player: Option<PlayerData>): (r: Result<Adjudication, GameplayError>)
    ensures r == Err(PlayerUnavailable) <==> player.None?
    ensures player.Some? ==>
      (r == Err(InvalidLevel) <==> level < 1 || level > |cfg.levels| || level > player.value.level)
    ensures r.Ok? <==>
      && player.Some? && 1 <= level <= |cfg.levels| && level <= player.value.level
      && rolls.Some? && rolls.value != [] && |rolls.value| <= cfg.levels[level - 1].totalRolls
    ensures r == Err(InvalidRolls) <==>
      && player.Some? && 1 <= level <= |cfg.levels| && level <= player.value.level
      && (rolls.None? || rolls.value == [] || |rolls.value| > cfg.levels[level - 1].totalRolls)
    ensures r != Err(IndexOutOfRange)
    ensures r.Ok? ==>
      var p, rs, lc, a := player.value, rolls.value, cfg.levels[level - 1], r.value;
      && (a.result.won <==> rs[|rs| - 1] == lc.target)
      && (a.result.unlockedNewLevel <==> a.result.won && level == p.level && level < |cfg.levels|)
      && a.result.energyReward == (if a.result.won then lc.energyReward else 0)
      && a.update.energyDelta == a.result.energyReward
      && a.update.newLevel == (if a.result.unlockedNewLevel then p.level + 1 else p.level)
      && a.statsDelta == (if a.result.won then PlayerLevelStats(level, 1, 0, |rs|)
                          else PlayerLevelStats(level, 0, 1, cfg.defaultLevelScore))
  {
    if player.None? then Err(PlayerUnavailable)
    else
      var p := player.value;
      if level < 1 || level > |cfg.levels| || level > p.level then Err(InvalidLevel)
      else
        var lc := cfg.levels[level - 1];
        if rolls.None? || rolls.value == [] || |rolls.value| > lc.totalRolls then Err(InvalidRolls)
        else Ok(Judge(cfg, level, rolls.value, p))
  }

  /** The two result rules differ only where the source panics: level 0,
      or an empty roll list for an otherwise valid request. */
  lemma AdjudicateCorrection(cfg: GameConfig, level: int, rolls: Option<seq<int>>, player: Option<PlayerData>)
    ensures AdjudicateAsWritten(cfg, level, rolls, player) != Err(IndexOutOfRange) ==>
      AdjudicateAsWritten(cfg, level, rolls, player) == Adjudicate(cfg, level, rolls, player)
    ensures AdjudicateAsWritten(cfg, level, rolls, player) == Err(IndexOutOfRange) <==>
      && player.Some?
      && (|| (level == 0 && player.value.level >= 0)
          || (&& 1 <= level <= |cfg.levels| && level <= player.value.level
              && cfg.levels[level - 1].totalRolls >= 0 && rolls == Some([])))
  {
  }

  /** A player's level stays within the level table: a result moves it up
      by at most one, and never past the last level. */
  lemma LevelStaysInRange(cfg: GameConfig, level: int, rolls: Option<seq<int>>, p: PlayerData)
    requires 1 <= p.level <= |cfg.levels|
    requires Adjudicate(cfg, level, rolls, Some(p)).Ok?
    ensures var n := Adjudicate(cfg, level, rolls, Some(p)).value.update.newLevel;
            p.level <= n <= p.level + 1 && 1 <= n <= |cfg.levels|
  {
  }

  // ---------------------------------------------------------------------
  // Player level and stats together

  /** The player's stats hold one entry per level, in level order, for every
      level below the player's level and possibly the player's level itself. */
  ghost predicate Coherent(playerLevel: int, stats: seq<PlayerLevelStats>) {
    Stats.Positional(stats) && playerLevel - 1 <= |stats| <= playerLevel
  }

  /** A new player (level 1, no stats) is coherent, and every adjudicated
      result keeps the player's level and stats coherent once the profile
      applies the update and the stats service merges the delta. */
  lemma PlayKeepsCoherent(cfg: GameConfig, level: int, rolls: Option<seq<int>>, p: PlayerData, stats: seq<PlayerLevelStats>)
    requires Coherent(p.level, stats)
    requires Adjudicate(cfg, level, rolls, Some(p)).Ok?
    ensures var a := Adjudicate(cfg, level, rolls, Some(p)).value;
            Stats.MergeDelta(stats, a.statsDelta).Ok?
            && Coherent(a.update.newLevel, Stats.MergeDelta(stats, a.statsDelta).value)
  {
  }

  lemma NewPlayerCoherent()
    ensures Coherent(Table.defaultLevel, [])
  {
  }

  // ---------------------------------------------------------------------
  // The handler tests' scenario

  /** On level 1 of the game's table, a loss with rolls [1, 1] followed by a
      win with rolls [1, 6] records {1, 0, 1, 99} and then {1, 1, 1, 2}; the
      win pays the level's reward and unlocks level 2. */
  lemma LossThenWin(p: PlayerData)
    requires p.level == 1
    ensures var loss := Adjudicate(Table, 1, Some([1, 1]), Some(p));
            && loss.Ok?
            && loss.value.result == LevelResult(false, 0, false)
            && Stats.ReturnUpdatedPlayerStats(Stats.NotFound, Some(loss.value.statsDelta), true)
               == Ok(PlayerStats([PlayerLevelStats(1, 0, 1, 99)]))
    ensures var win := Adjudicate(Table, 1, Some([1, 6]), Some(p));
            && win.Ok?
            && win.value.result == LevelResult(true, 5, true)
            && win.value.update == ProfileUpdate(5, 2)
            && Stats.ReturnUpdatedPlayerStats(Stats.Found(PlayerStats([PlayerLevelStats(1, 0, 1, 99)])),
                                              Some(win.value.statsDelta), true)
               == Ok(PlayerStats([PlayerLevelStats(1, 1, 1, 2)]))
  {
    TableShape();
    var win := Adjudicate(Table, 1, Some([1, 6]), Some(p));
    var before := [PlayerLevelStats(1, 0, 1, 99)];
    assert win.value.statsDelta == PlayerLevelStats(1, 1, 0, 2);
    assert Stats.MergeDelta(before, win.value.statsDelta) == Ok(before[0 := PlayerLevelStats(1, 1, 1, 2)]);
    assert before[0 := PlayerLevelStats(1, 1, 1, 2)] == [PlayerLevelStats(1, 1, 1, 2)];
  }
}
