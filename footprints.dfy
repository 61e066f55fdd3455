/** The `footprints` table and `FootprintsDB.record_anything` / `get_stats`
    (database.py). The SQLite table is a map from the canonical path (the
    primary key) to the rest of its row. */
module Footprints {
  import opened Strings
  import opened PathNames

  /** The columns of one row other than its key `path`. `lastVisit` stands for
      the `"%Y-%m-%d %H:%M:%S"` text of `datetime.now()`, as a number of seconds. */
  datatype Row = Row(name: string, kind: PathKind, visitCount: int, lastVisit: nat)

  type Table = map<string, Row>

  /** The filesystem-dependent steps of recording. `resolve` is
      `Path(s).expanduser().resolve(strict=False)` printed with `str`, `isDir` is
      `is_dir()`; `None` stands for the call raising an exception. */
  datatype FileSystem = FileSystem(resolve: string -> Option<string>, isDir: string -> Option<bool>)

  /** What a call did: nothing for an empty argument, a row written for the
      canonical path, or an exception caught and reported. */
  datatype Outcome = Skipped | Recorded(path: string) | Failed

  datatype RecordResult = RecordResult(table: Table, outcome: Outcome)

  /** `INSERT ... ON CONFLICT(path) DO UPDATE SET visit_count = visit_count + 1,
      last_visit = excluded.last_visit, name = excluded.name`. */
  function Upsert(t: Table, path: string, name: string, kind: PathKind, now: nat): (r: Table)
    ensures r.Keys == t.Keys + {path}
  {
    if path in t then t[path := t[path].(visitCount := t[path].visitCount + 1, lastVisit := now, name := name)]
    else t[path := Row(name, kind, 1, now)]
  }

  /** One call of `record_anything(pathStr)` at time `now`; `writable` is false
      when the SQLite write fails (a busy timeout or any other database error). */
  function Record(t: Table, f: Flavour, fs: FileSystem, pathStr: string, writable: bool, now: nat): (r: RecordResult)
    ensures pathStr == [] ==> r == RecordResult(t, Skipped)
    ensures !r.outcome.Recorded? ==> r.table == t
    ensures r.outcome.Recorded? ==>
              fs.resolve(pathStr) == Some(r.outcome.path) && r.table.Keys == t.Keys + {r.outcome.path}
  {
    if pathStr == [] then RecordResult(t, Skipped)
    else match fs.resolve(pathStr)
      case None => RecordResult(t, Failed)
      case Some(full) =>
        match fs.isDir(full)
        case None => RecordResult(t, Failed)
        case Some(dir) =>
          if !writable then RecordResult(t, Failed)
          else
            var name := DisplayName(f, full);
            var kind := Classify(dir, BaseName(f, full));
            RecordResult(Upsert(t, full, name, kind, now), Recorded(full))
  }

  /** Rows for every other path are left alone. */
  lemma RecordFrame(t: Table, f: Flavour, fs: FileSystem, pathStr: string, writable: bool, now: nat, q: string)
    requires q in t
    requires fs.resolve(pathStr) != Some(q)
    ensures Record(t, f, fs, pathStr, writable, now).table[q] == t[q]
  {
  }

  /** A first visit adds exactly one row: count 1, the given time, the derived
      name and type. */
  lemma RecordNewPath(t: Table, f: Flavour, fs: FileSystem, pathStr: string, now: nat, full: string, dir: bool)
    requires pathStr != [] && fs.resolve(pathStr) == Some(full) && fs.isDir(full) == Some(dir)
    requires full !in t
    ensures Record(t, f, fs, pathStr, true, now).table
            == t[full := Row(DisplayName(f, full), Classify(dir, BaseName(f, full)), 1, now)]
    ensures |Record(t, f, fs, pathStr, true, now).table| == |t| + 1
  {
  }

  /** A later visit bumps the count, refreshes the time and the name, and keeps
      the type of the first visit; the number of rows stays the same. */
  lemma RecordKnownPath(t: Table, f: Flavour, fs: FileSystem, pathStr: string, now: nat, full: string)
    requires pathStr != [] && fs.resolve(pathStr) == Some(full) && fs.isDir(full).Some?
    requires full in t
    ensures Record(t, f, fs, pathStr, true, now).table
            == t[full := Row(DisplayName(f, full), t[full].kind, t[full].visitCount + 1, now)]
    ensures |Record(t, f, fs, pathStr, true, now).table| == |t|
  {
    var dir := fs.isDir(full).value;
    RecordIsUpsert(t, f, fs, pathStr, true, now, full, dir);
    var name := DisplayName(f, full);
    var r := Upsert(t, full, name, Classify(dir, BaseName(f, full)), now);
    assert r == t[full := Row(name, t[full].kind, t[full].visitCount + 1, now)];
    assert r.Keys == t.Keys;
  }

  /** Any failure on the way (resolution, `is_dir`, the database write) leaves the
      table as it was. */
  lemma RecordFailureKeepsTable(t: Table, f: Flavour, fs: FileSystem, pathStr: string, writable: bool, now: nat)
    requires pathStr == [] || fs.resolve(pathStr).None? || fs.isDir(fs.resolve(pathStr).value).None? || !writable
    ensures Record(t, f, fs, pathStr, writable, now).table == t
    ensures Record(t, f, fs, pathStr, writable, now).outcome == if pathStr == [] then Skipped else Failed
  {
  }

  /** Row count as `get_stats` reports it: it grows by one exactly when a
      path not yet present is recorded. */
  lemma RecordCount(t: Table, f: Flavour, fs: FileSystem, pathStr: string, writable: bool, now: nat)
    ensures var r := Record(t, f, fs, pathStr, writable, now);
            |r.table| == if r.outcome.Recorded? && r.outcome.path !in t then |t| + 1 else |t|
  {
    var r := Record(t, f, fs, pathStr, writable, now);
    if r.outcome.Recorded? && r.outcome.path in t {
      assert r.table.Keys == t.Keys;
    }
  }

  /** Visit counts never go down and no row disappears. */
  lemma RecordMonotone(t: Table, f: Flavour, fs: FileSystem, pathStr: string, writable: bool, now: nat)
    ensures var r := Record(t, f, fs, pathStr, writable, now).table;
            forall p :: p in t ==> p in r && r[p].visitCount >= t[p].visitCount
  {
    var r := Record(t, f, fs, pathStr, writable, now);
    if r.outcome.Recorded? {
      var full := r.outcome.path;
      RecordIsUpsert(t, f, fs, pathStr, writable, now, full, fs.isDir(full).value);
      forall p | p in t
        ensures p in r.table && r.table[p].visitCount >= t[p].visitCount
      {
        if p != full {
          RecordFrame(t, f, fs, pathStr, writable, now, p);
        }
      }
    }
  }

  /** The table invariant of every table this program writes: counts are
      positive, the name is derived from the key, and the type is Folder or the
      type the name gives. */
  predicate WellFormed(f: Flavour, t: Table)
  {
    forall p :: p in t ==>
      && t[p].visitCount >= 1
      && t[p].name == DisplayName(f, p)
      && (t[p].kind == Folder || t[p].kind == Classify(false, BaseName(f, p)))
  }

  lemma RecordPreservesWellFormed(t: Table, f: Flavour, fs: FileSystem, pathStr: string, writable: bool, now: nat)
    requires WellFormed(f, t)
    ensures WellFormed(f, Record(t, f, fs, pathStr, writable, now).table)
  {
    var r := Record(t, f, fs, pathStr, writable, now);
    if r.outcome.Recorded? {
      var full := r.outcome.path;
      var dir := fs.isDir(full).value;
      RecordIsUpsert(t, f, fs, pathStr, writable, now, full, dir);
      var kind := Classify(dir, BaseName(f, full));
      assert kind == Folder || kind == Classify(false, BaseName(f, full));
      forall p | p in r.table
        ensures && r.table[p].visitCount >= 1
                && r.table[p].name == DisplayName(f, p)
                && (r.table[p].kind == Folder || r.table[p].kind == Classify(false, BaseName(f, p)))
      {
        if p != full {
          RecordFrame(t, f, fs, pathStr, writable, now, p);
        }
      }
    }
  }

  /** A successful call is the upsert of the canonical path with its derived name and type. */
  lemma RecordIsUpsert(t: Table, f: Flavour, fs: FileSystem, pathStr: string, writable: bool, now: nat, full: string, dir: bool)
    requires pathStr != [] && fs.resolve(pathStr) == Some(full) && fs.isDir(full) == Some(dir) && writable
    ensures Record(t, f, fs, pathStr, writable, now)
            == RecordResult(Upsert(t, full, DisplayName(f, full), Classify(dir, BaseName(f, full)), now), Recorded(full))
  {
  }

  /** Recording `pathStr` once per entry of `nows`, every write succeeding. */
  function RecordAll(t: Table, f: Flavour, fs: FileSystem, pathStr: string, nows: seq<nat>): Table
    decreases |nows|
  {
    if nows == [] then t
    else RecordAll(Record(t, f, fs, pathStr, true, nows[0]).table, f, fs, pathStr, nows[1..])
  }

  lemma RecordAllStep(t: Table, f: Flavour, fs: FileSystem, pathStr: string, nows: seq<nat>)
    requires nows != []
    ensures RecordAll(t, f, fs, pathStr, nows)
            == RecordAll(Record(t, f, fs, pathStr, true, nows[0]).table, f, fs, pathStr, nows[1..])
  {
  }

  /** Repeated visits to a path already present add their number to its count. */
  lemma {:induction false} RecordAllKnown(t: Table, f: Flavour, fs: FileSystem, pathStr: string, nows: seq<nat>, full: string)
    requires pathStr != [] && fs.resolve(pathStr) == Some(full) && fs.isDir(full).Some?
    requires full in t && nows != []
    ensures RecordAll(t, f, fs, pathStr, nows)
            == t[full := Row(DisplayName(f, full), t[full].kind, t[full].visitCount + |nows|, nows[|nows| - 1])]
    decreases |nows|
  {
    var name := DisplayName(f, full);
    var kind := t[full].kind;
    RecordKnownPath(t, f, fs, pathStr, nows[0], full);
    var t1 := t[full := Row(name, kind, t[full].visitCount + 1, nows[0])];
    assert Record(t, f, fs, pathStr, true, nows[0]).table == t1;
    RecordAllStep(t, f, fs, pathStr, nows);
    if |nows| > 1 {
      var rest := nows[1..];
      RecordAllKnown(t1, f, fs, pathStr, rest, full);
      assert rest[|rest| - 1] == nows[|nows| - 1];
      var row := Row(name, kind, t[full].visitCount + |nows|, nows[|nows| - 1]);
      calc {
        RecordAll(t, f, fs, pathStr, nows);
        RecordAll(t1, f, fs, pathStr, rest);
        t1[full := row];
        t[full := row];
      }
    } else {
      assert nows[1..] == [] && |nows| == 1;
      assert RecordAll(t1, f, fs, pathStr, nows[1..]) == t1;
    }
  }

  /** Recording a path not yet present N times leaves one new row for it, with
      visit count N and the time of the last call, and every other row as it was. */
  lemma RecordAllNew(t: Table, f: Flavour, fs: FileSystem, pathStr: string, nows: seq<nat>, full: string, dir: bool)
    requires pathStr != [] && fs.resolve(pathStr) == Some(full) && fs.isDir(full) == Some(dir)
    requires full !in t && nows != []
    ensures RecordAll(t, f, fs, pathStr, nows)
            == t[full := Row(DisplayName(f, full), Classify(dir, BaseName(f, full)), |nows|, nows[|nows| - 1])]
  {
    var name := DisplayName(f, full);
    var kind := Classify(dir, BaseName(f, full));
    RecordIsUpsert(t, f, fs, pathStr, true, nows[0], full, dir);
    var t1 := Upsert(t, full, name, kind, nows[0]);
    assert t1 == t[full := Row(name, kind, 1, nows[0])];
    var rest := nows[1..];
    assert RecordAll(t, f, fs, pathStr, nows) == RecordAll(t1, f, fs, pathStr, rest);
    if rest != [] {
      RecordAllKnown(t1, f, fs, pathStr, rest, full);
      assert rest[|rest| - 1] == nows[|nows| - 1];
      var row := Row(name, kind, |nows|, nows[|nows| - 1]);
      calc {
        RecordAll(t, f, fs, pathStr, nows);
        RecordAll(t1, f, fs, pathStr, rest);
        t1[full := row];
        t[full := row];
      }
    }
  }

  /** Recording the same path N times, starting from an empty table, leaves one
      row with visit count N and the time of the last call. */
  lemma RecordRepeatedFromEmpty(f: Flavour, fs: FileSystem, pathStr: string, nows: seq<nat>, full: string, dir: bool)
    requires pathStr != [] && fs.resolve(pathStr) == Some(full) && fs.isDir(full) == Some(dir)
    requires nows != []
    ensures RecordAll(map[], f, fs, pathStr, nows)
            == map[full := Row(DisplayName(f, full), Classify(dir, BaseName(f, full)), |nows|, nows[|nows| - 1])]
  {
    RecordAllNew(map[], f, fs, pathStr, nows, full, dir);
  }

  /** `record_anything` called for each path in turn. Call number `i` has its
      own connection, so whether its write succeeds, `writable(i)`, and its
      time, `now(i)`, are its own. */
  function RecordPaths(t: Table, f: Flavour, fs: FileSystem, paths: seq<string>,
                       writable: nat -> bool, now: nat -> nat): Table
    decreases |paths|
  {
    if paths == [] then t
    else
      var n := |paths| - 1;
      Record(RecordPaths(t, f, fs, paths[..n], writable, now), f, fs, paths[n], writable(n), now(n)).table
  }

  /** One more call after a run of calls. */
  lemma RecordPathsAppend(t: Table, f: Flavour, fs: FileSystem, paths: seq<string>, p: string,
                          writable: nat -> bool, now: nat -> nat)
    ensures RecordPaths(t, f, fs, paths + [p], writable, now)
            == Record(RecordPaths(t, f, fs, paths, writable, now), f, fs, p, writable(|paths|), now(|paths|)).table
  {
    assert (paths + [p])[..|paths|] == paths;
  }

  /** The visit count of `full`, zero when it has no row. */
  function CountOf(t: Table, full: string): int
  {
    if full in t then t[full].visitCount else 0
  }

  /** Whether a call of `record_anything(pathStr)` writes the row of `full`: the
      argument is non-empty, it resolves to `full`, `is_dir` answers and the
      write succeeds. */
  predicate WritesRow(fs: FileSystem, pathStr: string, writable: bool, full: string)
  {
    pathStr != [] && fs.resolve(pathStr) == Some(full) && fs.isDir(full).Some? && writable
  }

  /** The number of calls among the first `n` of a run that write the row of `full`. */
  function Writes(fs: FileSystem, paths: seq<string>, writable: nat -> bool, full: string, n: nat): (k: nat)
    requires n <= |paths|
    ensures k <= n
  {
    if n == 0 then 0
    else Writes(fs, paths, writable, full, n - 1) + (if WritesRow(fs, paths[n - 1], writable(n - 1), full) then 1 else 0)
  }

  /** One call adds one to the count of `full` exactly when it writes that row. */
  lemma RecordVisitCount(t: Table, f: Flavour, fs: FileSystem, pathStr: string, writable: bool, now: nat, full: string)
    ensures CountOf(Record(t, f, fs, pathStr, writable, now).table, full)
            == CountOf(t, full) + (if WritesRow(fs, pathStr, writable, full) then 1 else 0)
  {
    var r := Record(t, f, fs, pathStr, writable, now);
    if WritesRow(fs, pathStr, writable, full) {
      if full in t {
        RecordKnownPath(t, f, fs, pathStr, now, full);
      } else {
        RecordNewPath(t, f, fs, pathStr, now, full, fs.isDir(full).value);
      }
    } else if r.outcome.Recorded? && full in t {
      RecordFrame(t, f, fs, pathStr, writable, now, full);
    }
  }

  /** Over a run of calls, the visit count of `full` grows by exactly the number
      of calls that write its row. */
  lemma {:induction false} RecordPathsVisitCount(t: Table, f: Flavour, fs: FileSystem, paths: seq<string>,
                                                 writable: nat -> bool, now: nat -> nat, full: string)
    ensures CountOf(RecordPaths(t, f, fs, paths, writable, now), full)
            == CountOf(t, full) + Writes(fs, paths, writable, full, |paths|)
    decreases |paths|
  {
    if paths != [] {
      var n := |paths| - 1;
      var mid := RecordPaths(t, f, fs, paths[..n], writable, now);
      RecordPathsVisitCount(t, f, fs, paths[..n], writable, now, full);
      WritesAgree(fs, paths[..n], paths, writable, full, n);
      RecordVisitCount(mid, f, fs, paths[n], writable(n), now(n), full);
    }
  }

  /** The count depends only on the calls it covers. */
  lemma {:induction false} WritesAgree(fs: FileSystem, a: seq<string>, b: seq<string>, writable: nat -> bool, full: string, n: nat)
    requires n <= |a| && n <= |b| && a[..n] == b[..n]
    ensures Writes(fs, a, writable, full, n) == Writes(fs, b, writable, full, n)
    decreases n
  {
    if n > 0 {
      assert a[n - 1] == a[..n][n - 1] == b[..n][n - 1] == b[n - 1];
      assert a[..n - 1] == a[..n][..n - 1] == b[..n][..n - 1] == b[..n - 1];
      WritesAgree(fs, a, b, writable, full, n - 1);
    }
  }

  /** Calls that all fail leave the table as it was. */
  lemma {:induction false} RecordPathsFailing(t: Table, f: Flavour, fs: FileSystem, paths: seq<string>,
                                              writable: nat -> bool, now: nat -> nat)
    requires forall i :: 0 <= i < |paths| ==> !writable(i)
    ensures RecordPaths(t, f, fs, paths, writable, now) == t
    decreases |paths|
  {
    if paths != [] {
      var n := |paths| - 1;
      RecordPathsFailing(t, f, fs, paths[..n], writable, now);
      RecordFailureKeepsTable(t, f, fs, paths[n], writable(n), now(n));
    }
  }

  /** No call removes a row or lowers a count, so neither does a run of calls. */
  lemma {:induction false} RecordPathsMonotone(t: Table, f: Flavour, fs: FileSystem, paths: seq<string>,
                                               writable: nat -> bool, now: nat -> nat)
    ensures var r := RecordPaths(t, f, fs, paths, writable, now);
            forall p :: p in t ==> p in r && r[p].visitCount >= t[p].visitCount
    decreases |paths|
  {
    if paths != [] {
      var n := |paths| - 1;
      var mid := RecordPaths(t, f, fs, paths[..n], writable, now);
      RecordPathsMonotone(t, f, fs, paths[..n], writable, now);
      RecordMonotone(mid, f, fs, paths[n], writable(n), now(n));
    }
  }

  /** The database object: the table lives in the SQLite file and is read back
      when the object is created. */
  class FootprintsDB {
    const flavour: Flavour
    var table: Table

    /** Opening the database keeps whatever rows an earlier session stored. */
    constructor (flavour: Flavour, stored: Table)
      ensures this.flavour == flavour && table == stored
    {
      this.flavour := flavour;
      table := stored;
    }

    /** `record_anything`: canonicalise, derive name and type, upsert; every
      exception is caught and leaves the table unchanged. */
    method RecordAnything(pathStr: string, fs: FileSystem, writable: bool, now: nat) returns (outcome: Outcome)
      modifies this
      ensures RecordResult(table, outcome) == Record(old(table), flavour, fs, pathStr, writable, now)
    {
      if pathStr == [] {
        return Skipped;
      }
      var resolved := fs.resolve(pathStr);
      if resolved.None? {
        return Failed;
      }
      var full := resolved.value;
      var name := DisplayName(flavour, full);
      var dir := fs.isDir(full);
      if dir.None? {
        return Failed;
      }
      var kind := Classify(dir.value, BaseName(flavour, full));
      if !writable {
        return Failed;
      }
      table := Upsert(table, full, name, kind, now);
      outcome := Recorded(full);
    }

    /** `get_stats`: the number of rows. */
    method GetStats() returns (count: nat)
      ensures count == |table|
    {
      count := |table|;
    }
  }
}
