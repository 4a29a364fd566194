/**
 The log level `main` derives from the `-v` count: `ERROR` by default, one
 step more verbose per `-v`, never below `DEBUG`. Level numbers are those of
 Python's `logging` module.
 */
module LogLevel {

  const DEBUG: int := 10
  const INFO: int := 20
  const WARNING: int := 30
  const ERROR: int := 40

  function Max(a: int, b: int): (m: int)
    ensures m >= a && m >= b && (m == a || m == b)
  {
    if a >= b then a else b
  }

  /** The level set on the logger for a verbosity count. */
  function LevelFor(verbose: int): (level: int)
    ensures DEBUG <= level <= ERROR
    ensures verbose >= 0 ==> level == Max(ERROR - 10 * verbose, DEBUG)
    ensures verbose <= 0 ==> level == ERROR
  {
    if verbose > 0 then Max(ERROR - 10 * verbose, DEBUG) else ERROR
  }

  /** A record at `recordLevel` gets through a logger set to `level`. */
  predicate Emits(level: int, recordLevel: int) {
    recordLevel >= level
  }

  /** More `-v` flags never make the level less verbose. */
  lemma LevelForMonotone(v1: int, v2: int)
    requires v1 <= v2
    ensures LevelFor(v2) <= LevelFor(v1)
  {
  }

  /** What each verbosity lets through: errors always, warnings from one
      `-v`, info from two, debug from three. */
  lemma VerbosityGates(verbose: int)
    ensures Emits(LevelFor(verbose), ERROR)
    ensures Emits(LevelFor(verbose), WARNING) <==> verbose >= 1
    ensures Emits(LevelFor(verbose), INFO) <==> verbose >= 2
    ensures Emits(LevelFor(verbose), DEBUG) <==> verbose >= 3
  {
  }
}
