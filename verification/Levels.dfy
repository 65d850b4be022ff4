/** Severity levels and their names, as the vulnerability database defines them. */
module Levels {
  const UNKNOWN := "UNKNOWN"
  const SEVERITY_NAMES := [UNKNOWN, "LOW", "MEDIUM", "HIGH", "CRITICAL"]

  newtype Level = x: int | 0 <= x < 5

  function Name(level: Level): string {
    SEVERITY_NAMES[level]
  }

  /** `NewSeverity`: an unrecognised name counts as unknown. */
  function ParseLevel(name: string): Level {
    if name == "LOW" then 1
    else if name == "MEDIUM" then 2
    else if name == "HIGH" then 3
    else if name == "CRITICAL" then 4
    else 0
  }

  /** The five levels by number and name; every other name counts as unknown. */
  lemma LevelNames(name: string)
    ensures Name(0) == "UNKNOWN" && Name(1) == "LOW" && Name(2) == "MEDIUM" && Name(3) == "HIGH" && Name(4) == "CRITICAL"
    ensures name != "LOW" && name != "MEDIUM" && name != "HIGH" && name != "CRITICAL" <==> ParseLevel(name) == 0
    ensures ParseLevel(name) != 0 ==> Name(ParseLevel(name)) == name
  {
    assert SEVERITY_NAMES[0] == UNKNOWN;
    assert SEVERITY_NAMES[1] == "LOW" && SEVERITY_NAMES[2] == "MEDIUM";
    assert SEVERITY_NAMES[3] == "HIGH" && SEVERITY_NAMES[4] == "CRITICAL";
  }

  lemma NameUnknownIff(level: Level)
    ensures Name(level) == UNKNOWN <==> level == 0
    ensures Name(level) != "" && ParseLevel(Name(level)) == level
  {
    assert SEVERITY_NAMES[0] == UNKNOWN;
    assert SEVERITY_NAMES[1] == "LOW" && SEVERITY_NAMES[2] == "MEDIUM";
    assert SEVERITY_NAMES[3] == "HIGH" && SEVERITY_NAMES[4] == "CRITICAL";
    assert |UNKNOWN| == 7 && |"LOW"| == 3 && |"MEDIUM"| == 6 && |"HIGH"| == 4 && |"CRITICAL"| == 8;
  }
}
