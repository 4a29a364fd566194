/**
 `ConfigmapHandler.on_created`: the filter between filesystem creation
 events and reloads. A file (not directory) event is logged; when the
 basename of its path starts with `..data` (the name a projected volume
 gives the directory it swaps in atomically), the handler sleeps for its
 timeout and then reloads pgbouncer. Every qualifying event does this on its
 own: nothing is coalesced.
 */
module ConfigmapEvents {
  import opened PosixPath
  import opened Text
  import PgbouncerReload

  /** The name prefix that marks a completed atomic configuration update. */
  const DataMarker: string := "..data"

  /** A watchdog creation event. */
  datatype Event = Event(srcPath: string, isDirectory: bool)

  /** What handling an event does, in order. */
  datatype Action =
    | NoteCreated(path: string) // info: "CREATE event: '<path>'"
    | Sleep(seconds: nat)       // time.sleep(timeout)
    | TriggerReload             // pgbouncer_reload()

  /** The event is a file whose basename carries the marker. */
  predicate Qualifies(e: Event) {
    !e.isDirectory && StartsWith(Basename(e.srcPath), DataMarker)
  }

  /** `on_created`: directory events do nothing; file events are logged,
      and qualifying ones are followed by one sleep and one reload. */
  function OnCreated(h: PgbouncerReload.Handler, e: Event): (actions: seq<Action>)
    ensures e.isDirectory <==> actions == []
    ensures !e.isDirectory ==> actions[0] == NoteCreated(e.srcPath)
    ensures TriggerReload in actions <==> Qualifies(e)
    ensures TriggerReload in actions ==> actions == [NoteCreated(e.srcPath), Sleep(h.timeout), TriggerReload]
    ensures !e.isDirectory && !Qualifies(e) ==> actions == [NoteCreated(e.srcPath)]
  {
    if e.isDirectory then []
    else if StartsWith(Basename(e.srcPath), DataMarker) then [NoteCreated(e.srcPath), Sleep(h.timeout), TriggerReload]
    else [NoteCreated(e.srcPath)]
  }

  /** A file event triggers a reload exactly when the last component of its
      path (the text after the final `/`) starts with `..data`. */
  lemma ReloadIffLastComponentMarked(h: PgbouncerReload.Handler, e: Event)
    ensures TriggerReload in OnCreated(h, e)
            <==> !e.isDirectory && exists name :: IsLastComponent(e.srcPath, name) && StartsWith(name, DataMarker)
  {
    if !e.isDirectory {
      if exists name :: IsLastComponent(e.srcPath, name) && StartsWith(name, DataMarker) {
        var name :| IsLastComponent(e.srcPath, name) && StartsWith(name, DataMarker);
        BasenameIff(e.srcPath, name);
      }
      assert IsLastComponent(e.srcPath, Basename(e.srcPath));
    }
  }

  /** A directory event never sleeps or reloads, whatever its path. */
  lemma DirectoryEventIgnored(h: PgbouncerReload.Handler, path: string)
    ensures OnCreated(h, Event(path, true)) == []
  {
  }

  /** A file named `..data_tmp` under a watched directory triggers a reload. */
  lemma DataFileTriggers(h: PgbouncerReload.Handler)
    ensures OnCreated(h, Event("/etc/pgbouncer/..data_tmp", false))
            == [NoteCreated("/etc/pgbouncer/..data_tmp"), Sleep(h.timeout), TriggerReload]
  {
    assert "/etc/pgbouncer/..data_tmp" == "/etc/pgbouncer" + [Sep] + "..data_tmp";
    BasenameOfChild("/etc/pgbouncer", "..data_tmp");
  }

  /** A file inside a `..data` directory does not: only the last component counts. */
  lemma FileUnderDataDirectoryIgnored(h: PgbouncerReload.Handler)
    ensures OnCreated(h, Event("/etc/pgbouncer/..data/x", false)) == [NoteCreated("/etc/pgbouncer/..data/x")]
  {
    assert "/etc/pgbouncer/..data/x" == "/etc/pgbouncer/..data" + [Sep] + "x";
    BasenameOfChild("/etc/pgbouncer/..data", "x");
  }

  /** A path that ends in `/` has an empty basename and never triggers. */
  lemma TrailingSeparatorIgnored(h: PgbouncerReload.Handler, path: string)
    requires |path| > 0 && path[|path| - 1] == Sep
    ensures OnCreated(h, Event(path, false)) == [NoteCreated(path)]
  {
    BasenameOfTrailingSeparator(path);
  }

  /** The handler run on each event of a sequence, in order. */
  function HandleAll(h: PgbouncerReload.Handler, events: seq<Event>): (actions: seq<Action>)
    decreases |events|
  {
    if |events| == 0 then []
    else OnCreated(h, events[0]) + HandleAll(h, events[1..])
  }

  /** The events that qualify, in order. */
  function Qualifying(events: seq<Event>): (qs: seq<Event>)
    ensures forall e :: e in qs <==> e in events && Qualifies(e)
    ensures forall e :: multiset(qs)[e] == if Qualifies(e) then multiset(events)[e] else 0
    decreases |events|
  {
    if |events| == 0 then []
    else
      assert events == [events[0]] + events[1..];
      if Qualifies(events[0]) then [events[0]] + Qualifying(events[1..])
      else Qualifying(events[1..])
  }

  /** Events are handled independently: the actions for two batches are the
      actions for each, one after the other. */
  lemma {:induction false} HandleAllAppend(h: PgbouncerReload.Handler, a: seq<Event>, b: seq<Event>)
    ensures HandleAll(h, a + b) == HandleAll(h, a) + HandleAll(h, b)
    decreases |a|
  {
    if |a| > 0 {
      assert (a + b)[1..] == a[1..] + b;
      HandleAllAppend(h, a[1..], b);
    } else {
      assert a + b == b;
    }
  }

  /** No coalescing: N qualifying events give N sleeps and N reloads. */
  lemma {:induction false} ReloadPerQualifyingEvent(h: PgbouncerReload.Handler, events: seq<Event>)
    ensures multiset(HandleAll(h, events))[TriggerReload] == |Qualifying(events)|
    ensures multiset(HandleAll(h, events))[Sleep(h.timeout)] == |Qualifying(events)|
    decreases |events|
  {
    if |events| > 0 {
      ReloadPerQualifyingEvent(h, events[1..]);
      var first := OnCreated(h, events[0]);
      if Qualifies(events[0]) {
        assert multiset(first) == multiset{NoteCreated(events[0].srcPath), Sleep(h.timeout), TriggerReload};
      } else {
        assert TriggerReload !in first && Sleep(h.timeout) !in first;
      }
    }
  }

  /** Every reload comes right after a sleep of the handler's timeout. */
  lemma {:induction false} SleepBeforeEachReload(h: PgbouncerReload.Handler, events: seq<Event>)
    ensures forall i :: 0 <= i < |HandleAll(h, events)| && HandleAll(h, events)[i] == TriggerReload ==>
              i > 0 && HandleAll(h, events)[i - 1] == Sleep(h.timeout)
    decreases |events|
  {
    if |events| > 0 {
      SleepBeforeEachReload(h, events[1..]);
      var first := OnCreated(h, events[0]);
      var rest := HandleAll(h, events[1..]);
      assert HandleAll(h, events) == first + rest;
      forall i | 0 <= i < |first + rest| && (first + rest)[i] == TriggerReload
        ensures i > 0 && (first + rest)[i - 1] == Sleep(h.timeout)
      {
        if i < |first| {
          assert TriggerReload in first;
          assert first == [NoteCreated(events[0].srcPath), Sleep(h.timeout), TriggerReload];
        } else if i > |first| {
          assert rest[i - |first|] == TriggerReload;
        }
      }
    }
  }
}
