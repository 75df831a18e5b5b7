/** The stats service's update of one player's level stats
    (`ReturnUpdatedPlayerStats` in internal/stats/stats.go). The reads from
    and writes to the data service are not modelled as calls: the read's
    outcome and whether the write succeeded are parameters. */
module Stats {
  import opened Results
  import opened Types

  datatype StatsError =
    | NilDelta          // the delta pointer is nil
    | StatsNotFound     // the data service has no stats for the player (forwarded)
    | ReadFailed        // any other failure of the read
    | IndexOutOfRange   // LevelStats[level-1] with level < 1: panics in Go
    | WriteFailed

  /** What `readStatsFromDB` returned. */
  datatype ReadOutcome = Found(stats: PlayerStats) | NotFound | ReadError

  /** Go's built-in `min` on two integers. */
  function Min(a: int, b: int): (r: int)
    ensures r <= a && r <= b && (r == a || r == b)
  {
    if a <= b then a else b
  }

  /** Fold a delta into the level stats: the entry at index `level-1` gets
      the counts added (and the better score on a win), and when there is no
      such entry the delta is appended as it is. */
  function MergeDelta(stats: seq<PlayerLevelStats>, delta: PlayerLevelStats): (r: Result<seq<PlayerLevelStats>, StatsError>)
    ensures r.Err? <==> delta.level < 1
    ensures r.Err? ==> r.error == IndexOutOfRange
    ensures r.Ok? && delta.level - 1 < |stats| ==>
      var i := delta.level - 1;
      && |r.value| == |stats|
      && r.value[i].level == stats[i].level
      && r.value[i].winCount == stats[i].winCount + delta.winCount
      && r.value[i].lossCount == stats[i].lossCount + delta.lossCount
      && (delta.winCount == 1 ==> r.value[i].bestScore == Min(stats[i].bestScore, delta.bestScore))
      && (delta.winCount != 1 ==> r.value[i].bestScore == stats[i].bestScore)
      && (forall j :: 0 <= j < |stats| && j != i ==> r.value[j] == stats[j])
    ensures r.Ok? && delta.level - 1 >= |stats| ==> r.value == stats + [delta]
    ensures r.Ok? ==> forall j :: 0 <= j < |stats| ==> r.value[j].bestScore <= stats[j].bestScore
  {
    var i := delta.level - 1;
    if i < 0 then Err(IndexOutOfRange)
    else if i < |stats| then
      var entry := stats[i];
      var best := if delta.winCount == 1 then Min(entry.bestScore, delta.bestScore) else entry.bestScore;
      Ok(stats[i := entry.(winCount := entry.winCount + delta.winCount,
                          lossCount := entry.lossCount + delta.lossCount,
                          bestScore := best)])
    else Ok(stats + [delta])
  }

  /** `ReturnUpdatedPlayerStats`: refuse a nil delta, read the player's stats
      (a player without stats starts from an empty list, but only for
      level 1), merge, and write back. */
  function ReturnUpdatedPlayerStats(read: ReadOutcome, delta: Option<PlayerLevelStats>, writeSucceeded: bool): (r: Result<PlayerStats, StatsError>)
    ensures delta.None? ==> r == Err(NilDelta)
    ensures delta.Some? && read.ReadError? ==> r == Err(ReadFailed)
    ensures delta.Some? && read.NotFound? && delta.value.level != 1 ==> r == Err(StatsNotFound)
    ensures delta.Some? && read.Found? && delta.value.level < 1 ==> r == Err(IndexOutOfRange)
    ensures (delta.Some? && !writeSucceeded && delta.value.level >= 1
             && (read.Found? || (read.NotFound? && delta.value.level == 1))) ==> r == Err(WriteFailed)
    ensures r.Ok? <==> && delta.Some? && writeSucceeded && delta.value.level >= 1
                       && (read.Found? || (read.NotFound? && delta.value.level == 1))
    ensures r.Ok? && read.NotFound? ==> r.value.levelStats == [delta.value]
    ensures r.Ok? && read.Found? ==> MergeDelta(read.stats.levelStats, delta.value) == Ok(r.value.levelStats)
  {
    match delta
    case None => Err(NilDelta)
    case Some(d) =>
      var base: Result<seq<PlayerLevelStats>, StatsError> :=
        match read
        case Found(s) => Ok(s.levelStats)
        case NotFound => if d.level - 1 == 0 then Ok([]) else Err(StatsNotFound)
        case ReadError => Err(ReadFailed);
      if base.Err? then Err(base.error)
      else match MergeDelta(base.value, d)
        case Err(e) => Err(e)
        case Ok(merged) => if writeSucceeded then Ok(PlayerStats(merged)) else Err(WriteFailed)
  }

  // ---------------------------------------------------------------------
  // Totals over a player's stats

  function TotalWins(stats: seq<PlayerLevelStats>): int {
    if stats == [] then 0 else stats[0].winCount + TotalWins(stats[1..])
  }

  function TotalLosses(stats: seq<PlayerLevelStats>): int {
    if stats == [] then 0 else stats[0].lossCount + TotalLosses(stats[1..])
  }

  lemma {:induction false} TotalsOfAppend(stats: seq<PlayerLevelStats>, x: PlayerLevelStats)
    ensures TotalWins(stats + [x]) == TotalWins(stats) + x.winCount
    ensures TotalLosses(stats + [x]) == TotalLosses(stats) + x.lossCount
  {
    if stats != [] {
      assert (stats + [x])[1..] == stats[1..] + [x];
      TotalsOfAppend(stats[1..], x);
    }
  }

  lemma {:induction false} TotalsOfUpdate(stats: seq<PlayerLevelStats>, i: nat, x: PlayerLevelStats)
    requires i < |stats|
    ensures TotalWins(stats[i := x]) == TotalWins(stats) - stats[i].winCount + x.winCount
    ensures TotalLosses(stats[i := x]) == TotalLosses(stats) - stats[i].lossCount + x.lossCount
  {
    if i > 0 {
      assert stats[i := x][1..] == stats[1..][i - 1 := x];
      TotalsOfUpdate(stats[1..], i - 1, x);
    }
  }

  /** Merging a delta adds exactly the delta's wins and losses to the
      player's totals, whether it lands on an existing entry or is appended. */
  lemma MergeAddsCounts(stats: seq<PlayerLevelStats>, delta: PlayerLevelStats)
    requires delta.level >= 1
    ensures TotalWins(MergeDelta(stats, delta).value) == TotalWins(stats) + delta.winCount
    ensures TotalLosses(MergeDelta(stats, delta).value) == TotalLosses(stats) + delta.lossCount
  {
    var i := delta.level - 1;
    if i < |stats| {
      var r := MergeDelta(stats, delta).value;
      assert r == stats[i := r[i]];
      TotalsOfUpdate(stats, i, r[i]);
    } else {
      TotalsOfAppend(stats, delta);
    }
  }

  // ---------------------------------------------------------------------
  // Position of entries

  /** The entry at index j holds the stats of level j+1, the layout the
      lookup `LevelStats[level-1]` assumes. */
  ghost predicate Positional(stats: seq<PlayerLevelStats>) {
    forall j :: 0 <= j < |stats| ==> stats[j].level == j + 1
  }

  /** The lookup layout survives a merge exactly when the delta is for a
      level already present or for the next one; a delta for a later level
      is appended at the wrong position. */
  lemma MergePositional(stats: seq<PlayerLevelStats>, delta: PlayerLevelStats)
    requires Positional(stats) && delta.level >= 1
    ensures Positional(MergeDelta(stats, delta).value) <==> delta.level <= |stats| + 1
  {
    var r := MergeDelta(stats, delta).value;
    if delta.level > |stats| + 1 {
      assert r[|stats|] == delta;
    }
  }
}
