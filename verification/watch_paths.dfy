/**
 The watch-path selection at the start of `run`: the configured string is
 split on `;`, and each piece that names an existing directory is watched
 (logged and scheduled on the observer), while every other piece is skipped
 with a warning. Selecting no directory at all is not an error: the watcher
 starts and idles anyway. The filesystem check is a parameter.
 */
module WatchPaths {
  import opened Text

  /** Separates the paths in the configured string. */
  const PathSeparator: char := ';'

  /** What `run` does with one configured path. */
  datatype Decision =
    | Watch(path: string) // info "Watching path", then schedule it recursively
    | Skip(path: string)  // warning "not a directory or does not exist"

  /** One decision per segment, in order: watch the directories. */
  function Decide(segments: seq<string>, isDir: string -> bool): (ds: seq<Decision>)
    ensures |ds| == |segments|
    ensures forall i :: 0 <= i < |ds| ==> ds[i].path == segments[i] && (ds[i].Watch? <==> isDir(segments[i]))
    decreases |segments|
  {
    if |segments| == 0 then []
    else
      var d := if isDir(segments[0]) then Watch(segments[0]) else Skip(segments[0]);
      [d] + Decide(segments[1..], isDir)
  }

  /** The loop over `config_path.split(";")` in `run`. */
  function SelectWatchPaths(configPath: string, isDir: string -> bool): (ds: seq<Decision>)
    ensures |ds| == |Split(configPath, PathSeparator)| >= 1
    ensures forall i :: 0 <= i < |ds| ==>
              ds[i].path == Split(configPath, PathSeparator)[i] && (ds[i].Watch? <==> isDir(ds[i].path))
  {
    Decide(Split(configPath, PathSeparator), isDir)
  }

  /** The paths scheduled on the observer, in order. */
  function Watched(ds: seq<Decision>): (paths: seq<string>)
    ensures |paths| <= |ds|
    decreases |ds|
  {
    if |ds| == 0 then []
    else (if ds[0].Watch? then [ds[0].path] else []) + Watched(ds[1..])
  }

  /** The paths warned about, in order. */
  function Skipped(ds: seq<Decision>): (paths: seq<string>)
    ensures |paths| <= |ds|
    decreases |ds|
  {
    if |ds| == 0 then []
    else (if ds[0].Skip? then [ds[0].path] else []) + Skipped(ds[1..])
  }

  /** The elements of `xs` that satisfy `p`, in order. */
  function Filter(xs: seq<string>, p: string -> bool): (ys: seq<string>)
    ensures forall y :: y in ys <==> y in xs && p(y)
    ensures forall y :: multiset(ys)[y] == if p(y) then multiset(xs)[y] else 0
    decreases |xs|
  {
    if |xs| == 0 then []
    else
      assert xs == [xs[0]] + xs[1..];
      if p(xs[0]) then [xs[0]] + Filter(xs[1..], p)
      else Filter(xs[1..], p)
  }

  /** The watched paths are exactly the segments `isDir` accepts, in their
      original order; the skipped ones are exactly those it rejects. */
  lemma {:induction false} DecideFilters(segments: seq<string>, isDir: string -> bool)
    ensures Watched(Decide(segments, isDir)) == Filter(segments, isDir)
    ensures Skipped(Decide(segments, isDir)) == Filter(segments, s => !isDir(s))
    decreases |segments|
  {
    if |segments| > 0 {
      DecideFilters(segments[1..], isDir);
      assert Decide(segments, isDir)[1..] == Decide(segments[1..], isDir);
    }
  }

  /** Each decision either watches or skips, so the two lists together
      account for every segment. */
  lemma {:induction false} WatchedPlusSkipped(ds: seq<Decision>)
    ensures |Watched(ds)| + |Skipped(ds)| == |ds|
    decreases |ds|
  {
    if |ds| > 0 {
      WatchedPlusSkipped(ds[1..]);
    }
  }

  /** Watch-path selection as a whole: the watched list is the filtered
      segment list, there is one warning per rejected segment, and the two
      add up to the number of segments, which is at least one. */
  lemma SelectionPartitionsSegments(configPath: string, isDir: string -> bool)
    ensures Watched(SelectWatchPaths(configPath, isDir)) == Filter(Split(configPath, PathSeparator), isDir)
    ensures Skipped(SelectWatchPaths(configPath, isDir)) == Filter(Split(configPath, PathSeparator), s => !isDir(s))
    ensures |Watched(SelectWatchPaths(configPath, isDir))| + |Skipped(SelectWatchPaths(configPath, isDir))|
            == |Split(configPath, PathSeparator)| >= 1
  {
    DecideFilters(Split(configPath, PathSeparator), isDir);
    WatchedPlusSkipped(SelectWatchPaths(configPath, isDir));
  }

  /** When no segment is a directory, nothing is watched and every segment is
      warned about; selection still succeeds. */
  lemma {:induction false} NoDirectoryWatchesNothing(configPath: string, isDir: string -> bool)
    requires forall i :: 0 <= i < |Split(configPath, PathSeparator)| ==> !isDir(Split(configPath, PathSeparator)[i])
    ensures Watched(SelectWatchPaths(configPath, isDir)) == []
    ensures Skipped(SelectWatchPaths(configPath, isDir)) == Split(configPath, PathSeparator)
  {
    var segments := Split(configPath, PathSeparator);
    SelectionPartitionsSegments(configPath, isDir);
    FilterNone(segments, isDir);
    FilterAll(segments, s => !isDir(s));
  }

  /** Filtering with a predicate nothing satisfies leaves nothing. */
  lemma {:induction false} FilterNone(xs: seq<string>, p: string -> bool)
    requires forall i :: 0 <= i < |xs| ==> !p(xs[i])
    ensures Filter(xs, p) == []
    decreases |xs|
  {
    if |xs| > 0 {
      FilterNone(xs[1..], p);
    }
  }

  /** Filtering with a predicate everything satisfies keeps everything. */
  lemma {:induction false} FilterAll(xs: seq<string>, p: string -> bool)
    requires forall i :: 0 <= i < |xs| ==> p(xs[i])
    ensures Filter(xs, p) == xs
    decreases |xs|
  {
    if |xs| > 0 {
      FilterAll(xs[1..], p);
      assert xs == [xs[0]] + xs[1..];
    }
  }

  /** One existing and one missing directory: the first is watched, the
      second skipped with a warning. */
  lemma ExistingAndMissingPath(isDir: string -> bool)
    requires isDir("/etc/pgbouncer") && !isDir("/missing/path")
    ensures SelectWatchPaths("/etc/pgbouncer;/missing/path", isDir)
            == [Watch("/etc/pgbouncer"), Skip("/missing/path")]
  {
    var parts := ["/etc/pgbouncer", "/missing/path"];
    assert Join(parts, PathSeparator) == "/etc/pgbouncer;/missing/path";
    SplitJoin(parts, PathSeparator);
  }
}
