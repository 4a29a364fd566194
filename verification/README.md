# pgbouncer-config-reload, modelled in Dafny

pgbouncer-config-reload watches configuration directories that an
orchestrator mounts into a container. When a new version of the
configuration is swapped in, the tool tells pgbouncer to reload it by sending
`RELOAD;` over pgbouncer's admin console. This project models the sequential
logic of `pgbouncer_config_reload/cli.py` as pure Dafny functions and proves
properties about it. The outside world appears only as parameters: the
filesystem check is a predicate, and each database driver call has an
outcome oracle.

The logic falls into four pieces, each in its own module:

- `ConfigmapEvents` (`configmap_events.dfy`) models `ConfigmapHandler.on_created`.
  A creation event for a directory does nothing. A file event is logged. If
  the file's basename starts with `..data`, that one event is followed by one
  `Sleep(timeout)` and one `TriggerReload`. Nothing is coalesced: `N` qualifying
  events give `N` reloads.
- `PgbouncerReload` (`pgbouncer_reload.dfy`) models `ConfigmapHandler.pgbouncer_reload`.
  The try block runs five driver steps in order: connect,
  `set_isolation_level(0)`, `cursor()`, `execute("RELOAD;")` and `commit()`.
  It stops at the first step that raises. The except clause logs that one
  error. The finally clause closes the cursor and the connection, but only
  those that were obtained. The result is the trace of effects. It has no
  error case, because the `except (Exception, psycopg2.Error)` clause catches
  every `Exception` a driver step raises. As in the source, "gracefully
  reloaded" is logged whenever a connection was obtained, even if `execute`
  or `commit` then failed.
- `WatchPaths` (`watch_paths.dfy`) models the loop in `run` that splits the
  configured paths on `;`. Each segment that the `isDir` predicate accepts is
  watched, in order. Every other segment produces a warning.
- `LogLevel` (`log_level.dfy`) models the level `main` computes from the `-v` count.

Two helper modules hold the string operations these pieces rely on:

- `PosixPath` (`posix_path.dfy`) defines `os.path.basename`. Its contract says
  the result is the path's last component.
- `Text` (`text.dfy`) defines `str.startswith`, `str.split` on one character,
  and `Join`, the inverse of `Split`.

Selecting no directory is not an error: `run` logs one warning per path and
enters its idle loop anyway (`cli.py:110-124`). `SelectWatchPaths` therefore
has no error result, and `NoDirectoryWatchesNothing` states this case.

## Model

| member | source | states |
|---|---|---|
| PosixPath.Basename | pgbouncer_config_reload/cli.py:53 | the basename contains no `/`, ends the path, and is either the whole path or comes right after a `/` |
| PosixPath.BasenameIff | pgbouncer_config_reload/cli.py:53 | a string is the path's last component exactly when it is `Basename` of the path (both directions) |
| PosixPath.BasenameOfChild | pgbouncer_config_reload/cli.py:53 | `Basename(dir + "/" + name)` is `name` for any name without `/` |
| PosixPath.BasenameOfTrailingSeparator | pgbouncer_config_reload/cli.py:53 | a path ending in `/` has an empty basename |
| Text.StartsWithIff | pgbouncer_config_reload/cli.py:53 | `s.startswith(p)` holds exactly when `s` is `p` followed by some text |
| Text.StartsWith | pgbouncer_config_reload/cli.py:53 | `str.startswith`: holds exactly when the prefix fits in the string and agrees with it character by character |
| Text.Split | pgbouncer_config_reload/cli.py:110 | `split(";")` returns at least one piece, no piece contains `;`, and joining the pieces with `;` gives the input back |
| Text.SplitJoin | pgbouncer_config_reload/cli.py:110 | splitting the join of `;`-free pieces returns exactly those pieces |
| ConfigmapEvents.OnCreated | pgbouncer_config_reload/cli.py:45-55 | a directory event produces no action; a file event is logged first; it reloads exactly when it qualifies, and then its actions are exactly log, `Sleep(timeout)`, `TriggerReload`; otherwise the single log line is its only action |
| ConfigmapEvents.ReloadIffLastComponentMarked | pgbouncer_config_reload/cli.py:51-55 | an event reloads exactly when it is not a directory and the last component of its path starts with `..data` |
| ConfigmapEvents.DirectoryEventIgnored | pgbouncer_config_reload/cli.py:51 | a directory event never sleeps, logs or reloads, whatever its path |
| ConfigmapEvents.DataFileTriggers | pgbouncer_config_reload/cli.py:51-55 | creating `/etc/pgbouncer/..data_tmp` gives log, `Sleep(timeout)`, `TriggerReload` |
| ConfigmapEvents.FileUnderDataDirectoryIgnored | pgbouncer_config_reload/cli.py:53 | creating `/etc/pgbouncer/..data/x` is logged but does not reload |
| ConfigmapEvents.TrailingSeparatorIgnored | pgbouncer_config_reload/cli.py:53 | a file path ending in `/` is logged but does not reload |
| ConfigmapEvents.HandleAllAppend | pgbouncer_config_reload/cli.py:45-55 | events are handled independently: the actions for `a + b` are those for `a` followed by those for `b` |
| ConfigmapEvents.Qualifying | pgbouncer_config_reload/cli.py:51-53 | the qualifying events are the events that pass the `on_created` tests, each with its full multiplicity, so repeated events are not merged |
| ConfigmapEvents.ReloadPerQualifyingEvent | pgbouncer_config_reload/cli.py:53-55 | a sequence of events yields exactly as many reloads, and as many sleeps of the timeout, as it has qualifying events |
| ConfigmapEvents.SleepBeforeEachReload | pgbouncer_config_reload/cli.py:54-55 | every reload comes directly after a sleep of the handler's timeout |
| WatchPaths.Decide | pgbouncer_config_reload/cli.py:110-115 | one decision per segment, in order; a segment is watched exactly when `isDir` accepts it, and skipped otherwise |
| WatchPaths.Filter | pgbouncer_config_reload/cli.py:110-115 | the reference filter for the loop: it keeps each element the predicate accepts, with its full multiplicity, and drops every other element |
| WatchPaths.SelectWatchPaths | pgbouncer_config_reload/cli.py:110-115 | there is one decision per `;`-separated segment of the configured string, in order, and there is at least one; a segment is watched exactly when it is a directory |
| WatchPaths.DecideFilters | pgbouncer_config_reload/cli.py:110-115 | the watched paths are the segments `isDir` accepts, in their original order; the skipped paths are those it rejects |
| WatchPaths.WatchedPlusSkipped | pgbouncer_config_reload/cli.py:110-115 | watched plus skipped equals the number of decisions |
| WatchPaths.SelectionPartitionsSegments | pgbouncer_config_reload/cli.py:110-117 | the watched list is the filtered segment list, each rejected segment gives one warning, and the two counts add up to the number of segments, which is at least one |
| WatchPaths.NoDirectoryWatchesNothing | pgbouncer_config_reload/cli.py:110-118 | when no segment is a directory, nothing is watched, every segment is warned about, and selection still returns normally |
| WatchPaths.ExistingAndMissingPath | pgbouncer_config_reload/cli.py:110-115 | for `/etc/pgbouncer;/missing/path`, the first path is watched and the second is skipped |
| LogLevel.LevelFor | pgbouncer_config_reload/cli.py:193-196 | the level is `max(40 - 10*verbose, 10)` for every `verbose >= 0`, `ERROR` for `verbose <= 0`, and always lies between `DEBUG` and `ERROR` |
| LogLevel.LevelForMonotone | pgbouncer_config_reload/cli.py:193-196 | more `-v` flags never make the level less verbose |
| LogLevel.VerbosityGates | pgbouncer_config_reload/cli.py:193-196 | errors are always emitted; warnings from one `-v`, info from two, debug from three |
| PgbouncerReload.RunTry | pgbouncer_config_reload/cli.py:64-75 | running the try block meets the try-block semantics: the calls are a prefix of the script with their outcomes; every call but the last succeeded; the block raises at the failing step and completes only after all steps succeed |
| PgbouncerReload.Script | pgbouncer_config_reload/cli.py:64-75 | the try block has five distinct steps: the connection is acquired only by the first step and the cursor only by the third; the only isolation step is the second and sets autocommit (0); the only `execute` is the fourth, runs `RELOAD;` and is followed by `commit` |
| PgbouncerReload.Except | pgbouncer_config_reload/cli.py:76-77 | the except clause logs at most one error. It logs one exactly when the try block raised, and the error names the step that raised |
| PgbouncerReload.Finally | pgbouncer_config_reload/cli.py:78-84 | the finally clause closes the cursor exactly when one is held. It closes the connection, and logs both "closed" and "gracefully reloaded", exactly when a connection is held. It never calls the driver and never reports a failure |
| PgbouncerReload.TrySemanticsDeterminesRun | pgbouncer_config_reload/cli.py:64-75 | only one run meets the try-block semantics, so `RunTry` is the unique run |
| PgbouncerReload.AttemptedIffEarlierSucceeded | pgbouncer_config_reload/cli.py:64-75 | a step is reached exactly when every earlier step succeeded; the block completes exactly when every step succeeds |
| PgbouncerReload.Reload | pgbouncer_config_reload/cli.py:57-84 | the trace starts with the "starting" log; it contains a failure report exactly when some driver step raises; no error leaves the handler |
| PgbouncerReload.ReloadCallsInOrder | pgbouncer_config_reload/cli.py:65-75 | driver calls sit right after the start, in the order connect, `set_isolation_level(0)`, `cursor()`, `execute("RELOAD;")`, `commit()`, each with its outcome |
| PgbouncerReload.ReloadStepRunsIffEarlierSucceeded | pgbouncer_config_reload/cli.py:64-75 | each step runs exactly when all earlier steps succeeded |
| PgbouncerReload.ReloadReportsOneFailure | pgbouncer_config_reload/cli.py:76-77 | at most one error is logged, and the step it reports was called and raised |
| PgbouncerReload.ReloadHoldsConnection | pgbouncer_config_reload/cli.py:65-71 | after the try block a connection is held exactly when connecting succeeded |
| PgbouncerReload.ReloadHoldsCursor | pgbouncer_config_reload/cli.py:65-73 | after the try block a cursor is held exactly when connect, isolation level and cursor all succeeded |
| PgbouncerReload.ReloadOpens | pgbouncer_config_reload/cli.py:65-73 | the trace acquires the connection exactly when connecting succeeds, and the cursor exactly when the first three steps succeed |
| PgbouncerReload.ReloadReleasesResources | pgbouncer_config_reload/cli.py:78-82 | a resource is closed exactly when it was acquired; it is closed once, after it was acquired; the cursor is closed before the connection |
| PgbouncerReload.ReloadReportsReloadedIffConnected | pgbouncer_config_reload/cli.py:81-84 | "gracefully reloaded" is logged exactly when connecting succeeded, whatever happened afterwards |
| PgbouncerReload.ReloadedReportedDespiteFailure | pgbouncer_config_reload/cli.py:74-84 | when `execute("RELOAD;")` raises after a cursor was obtained, the trace holds both the failure report and "gracefully reloaded" |
| PgbouncerReload.ReloadAllSucceed | pgbouncer_config_reload/cli.py:61-84 | when every step succeeds, the trace is: start, the five successful calls, close cursor, close connection, "closed", "gracefully reloaded"; no error is logged |
| PgbouncerReload.FinallyReleasesHeld | pgbouncer_config_reload/cli.py:78-84 | the finally clause closes each held resource exactly once and nothing else; it closes the cursor before the connection; it logs "gracefully reloaded" exactly when a connection is held |
| PgbouncerReload.ReleasesWhatItAcquires | pgbouncer_config_reload/cli.py:64-84 | for any try-block run, every acquired resource is closed exactly once, after its acquisition, and nothing unacquired is closed |

## Left out

- The watchdog `Observer`, recursive scheduling, `start`/`stop`/`join` and the threads that run callbacks. These are a foreign library and concurrency. `Watch(path)` stands for "log it and schedule it".
- The idle keep-alive loop in `run` and the wall-clock behaviour of `time.sleep`. `Sleep(timeout)` is an action in the trace.
- The signal handlers, `sys.exit` and `KeyboardInterrupt` handling. This is process control.
- Option parsing with configargparse, environment variables, and the defaults of the options and of the `ConfigmapHandler` constructor. Where those values are needed, they are taken as given parameters.
- Log formatting, the JSON formatter and the handler setup. Each log effect (`NoteCreated`, `Started`, `ReportFailure`, `ReportClosed`, `ReportReloaded`, and the warning a `Skip` stands for) records a logging *call*, not a printed line. Whether the line is printed depends on the level `LevelFor` sets: at the default `ERROR` level only `ReportFailure` appears. Message texts are not modelled.
- Truthiness of driver objects. The finally clause tests `if cursor:` and `if connection:`, and the model reads these as "was assigned" (`Holds`). This assumes psycopg2 connection and cursor objects are always truthy.
- The real psycopg2 connection, cursor and network traffic. Each driver step is an abstract success or failure.
- `os.path.isdir`. It is an uninterpreted predicate `isDir`.
- PgbouncerReload.Reload: `cursor.close()` and `connection.close()` are assumed not to raise, because their failure is unspecified. `BaseException`s that `except Exception` would not catch are not modelled. Signals reach only the main thread, so the callback thread does not see them.
- ConfigmapEvents.OnCreated: the timeout is a natural number. The `int()` parsing of the option is not modelled. A negative timeout, which makes `time.sleep` raise, is not modelled either.
- LogLevel.LevelFor: `verbose` is taken as an integer. How configargparse turns a `VERBOSE` environment value into a count is not modelled.
