/** Worked scenarios with concrete schedules. Instants are epoch milliseconds
    of midnight in Asia/Tokyo: 2023-01-01, 2024-09-30 and 2024-10-01. */
module MinimumWageScenarios {
  import opened Wrappers
  import opened Wages
  import opened MinimumWageLookup
  import opened MinimumWageProperties

  const Jan1st2023: Instant := 1672498800000
  const Sep30th2024: Instant := 1727622000000
  const Oct1st2024: Instant := 1727708400000

  const TokyoCurrent := MinimumWage("Tokyo", 1000, Jan1st2023)
  const TokyoNext := MinimumWage("Tokyo", 1100, Oct1st2024)
  const OsakaNext := MinimumWage("Osaka", 1050, Oct1st2024)

  /** The day before the new Tokyo rate the old one applies; from its start
      instant the new one does; force mode shows the new one even in 2023. An
      unknown prefecture yields the sentinel, not an error. */
  lemma TokyoScenario()
    ensures GetMinimumWage(Some("Tokyo"), [TokyoCurrent], [TokyoNext], false, Sep30th2024)
      == Success(Some(TokyoCurrent))
    ensures GetMinimumWage(Some("Tokyo"), [TokyoCurrent], [TokyoNext], false, Oct1st2024)
      == Success(Some(TokyoNext))
    ensures GetMinimumWage(Some("Tokyo"), [TokyoCurrent], [TokyoNext], true, Jan1st2023)
      == Success(Some(TokyoNext))
    ensures GetMinimumWage(Some("Hokkaido"), [TokyoCurrent], [TokyoNext], false, Oct1st2024)
      == Success(None)
  {
  }

  /** Osaka is scheduled in "next" but missing from "current": before its start
      the merge fails naming Osaka, and so does every single-prefecture lookup,
      Tokyo's included, since the lookup merges the whole schedule first. */
  lemma OsakaScenario()
    ensures GetMinimumWages([TokyoCurrent], [TokyoNext, OsakaNext], false, Sep30th2024)
      == Failure(DataInconsistency("Osaka"))
    ensures GetMinimumWage(Some("Tokyo"), [TokyoCurrent], [TokyoNext, OsakaNext], false, Sep30th2024)
      == Failure(DataInconsistency("Osaka"))
    ensures GetMinimumWages([TokyoCurrent], [TokyoNext, OsakaNext], false, Oct1st2024)
      == Success([TokyoNext, OsakaNext])
  {
    var current, next := [TokyoCurrent], [TokyoNext, OsakaNext];
    assert "Tokyo" != "Osaka" by { assert "Tokyo"[0] != "Osaka"[0]; }
    assert HasName(current, "Tokyo") by { assert current[0].prefectureName == "Tokyo"; }
    assert !Unresolvable(current, next[0], Sep30th2024);
    assert Unresolvable(current, next[1], Sep30th2024);
    AllEffectiveMergeIsNext([TokyoCurrent], [TokyoNext, OsakaNext], Oct1st2024);
  }
}
