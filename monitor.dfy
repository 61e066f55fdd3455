/** The Windows monitor of main.py: the list of open Explorer windows, the
    shortcut resolution, the newest item of the Recent folder, and the two
    steps of each cycle of `monitor_windows`. COM objects, the file system and
    the clock are parameters. */
module Monitor {
  import opened Strings
  import opened Footprints
  import opened FileUrl

  /** A COM property read: its value, or an exception. */
  datatype Com<T> = Raised | Value(v: T)

  /** What `list_explorer_windows_win` reads from one shell window. `""` stands for
      a property that is None. */
  datatype ShellWindow = ShellWindow(
    fullName: Com<string>,
    folderPath: Com<string>,
    locationUrl: Com<string>,
    hwnd: Com<int>)

  /** What the shell delivers. `Dispatch("Shell.Application")` may raise, and the
      `shell.Windows()` enumeration may raise, before the first window or after
      some windows; `ws` are the windows delivered before that. */
  datatype Shell = DispatchFailed | Enumerated(ws: seq<ShellWindow>, raisedAfter: bool)

  /** A Python dict from window handle to path, in insertion order. */
  type WindowMap = seq<(int, string)>

  predicate DistinctKeys(d: WindowMap)
  {
    forall i, j :: 0 <= i < j < |d| ==> d[i].0 != d[j].0
  }

  /** The position of key `k` in `d` at or after `from`, or -1. */
  function IndexOfFrom(d: WindowMap, k: int, from: nat): (r: int)
    requires from <= |d|
    ensures r == -1 || from <= r < |d|
    ensures r >= 0 ==> d[r].0 == k
    ensures forall j :: from <= j < |d| && (r == -1 || j < r) ==> d[j].0 != k
    decreases |d| - from
  {
    if from == |d| then -1
    else if d[from].0 == k then from
    else IndexOfFrom(d, k, from + 1)
  }

  function IndexOf(d: WindowMap, k: int): (r: int)
    ensures -1 <= r < |d|
    ensures r >= 0 ==> d[r].0 == k
    ensures forall j :: 0 <= j < |d| && (r == -1 || j < r) ==> d[j].0 != k
  {
    IndexOfFrom(d, k, 0)
  }

  /** `d.get(k)`. */
  function Get(d: WindowMap, k: int): Option<string>
  {
    var i := IndexOf(d, k);
    if i < 0 then None else Some(d[i].1)
  }

  /** `d[k] = v`: a present key keeps its place, a new key goes last. */
  function Put(d: WindowMap, k: int, v: string): (r: WindowMap)
  {
    var i := IndexOf(d, k);
    if i < 0 then d + [(k, v)] else d[i := (k, v)]
  }

  /** After `d[k] = v`, `k` maps to `v`, every other key is as before, and keys stay unique. */
  lemma PutGet(d: WindowMap, k: int, v: string, h: int)
    requires DistinctKeys(d)
    ensures DistinctKeys(Put(d, k, v))
    ensures Get(Put(d, k, v), h) == if h == k then Some(v) else Get(d, h)
  {
    var r := Put(d, k, v);
    var i := IndexOf(d, k);
    var j := IndexOf(r, h);
    if h == k {
      if i < 0 {
        assert r[|d|].0 == h;
      } else {
        assert r[i].0 == h;
      }
    } else {
      var jd := IndexOf(d, h);
      if jd >= 0 {
        assert r[jd].0 == h;
      }
    }
  }

  /** In a dict with unique keys, every entry is what `get` returns for its key. */
  lemma GetEntry(d: WindowMap, i: nat)
    requires DistinctKeys(d) && i < |d|
    ensures Get(d, d[i].0) == Some(d[i].1)
  {
  }

  /** The path one window contributes, or None when the window is skipped:
      not Explorer, no usable path, a relative path, or a property that raised.
      The folder path is tried first; the location URL only when reading the
      folder path raised. */
  function WindowPath(w: ShellWindow, isAbs: string -> bool): Option<string>
  {
    match w.fullName
    case Raised => None
    case Value(fullName) =>
      if !Contains(LowerAscii(fullName), "explorer.exe") then None
      else
        var path: Com<Option<string>> :=
          match w.folderPath
          case Value(p) => Value(if p == [] then None else Some(p))
          case Raised =>
            match w.locationUrl
            case Raised => Raised
            case Value(u) => Value(FileUrlToPathWin(u));
        match path
        case Raised => None
        case Value(None) => None
        case Value(Some(p)) =>
          if p != [] && (isAbs(p) || StartsWith(p, "\\\\")) then Some(p) else None
  }

  /** The entry one window adds to the dict. */
  function WindowEntry(w: ShellWindow, isAbs: string -> bool): Option<(int, string)>
  {
    match WindowPath(w, isAbs)
    case None => None
    case Some(p) =>
      match w.hwnd
      case Raised => None
      case Value(h) => Some((h, p))
  }

  /** The dict after the loop has seen the windows `ws`, in order. */
  function Collect(ws: seq<ShellWindow>, isAbs: string -> bool): WindowMap
    decreases |ws|
  {
    if ws == [] then []
    else
      var d := Collect(ws[..|ws| - 1], isAbs);
      match WindowEntry(ws[|ws| - 1], isAbs)
      case None => d
      case Some(e) => Put(d, e.0, e.1)
  }

  /** `list_explorer_windows_win()`: the outer `except: pass` returns the dict
      filled so far, which is empty when the shell cannot be created and holds
      the windows already seen when the enumeration raises. */
  function ExplorerWindows(shell: Shell, isAbs: string -> bool): WindowMap
  {
    match shell
    case DispatchFailed => []
    case Enumerated(ws, _) => Collect(ws, isAbs)
  }

  /** The independent reading of the dict: the path of the last usable window
      with handle `h`. */
  function LastPathFor(ws: seq<ShellWindow>, isAbs: string -> bool, h: int): Option<string>
    decreases |ws|
  {
    if ws == [] then None
    else
      match WindowEntry(ws[|ws| - 1], isAbs)
      case Some(e) => if e.0 == h then Some(e.1) else LastPathFor(ws[..|ws| - 1], isAbs, h)
      case None => LastPathFor(ws[..|ws| - 1], isAbs, h)
  }

  /** Every handle appears once, and it maps to the path of the last usable window
      that has it. */
  lemma {:induction false} CollectMeaning(ws: seq<ShellWindow>, isAbs: string -> bool, h: int)
    ensures DistinctKeys(Collect(ws, isAbs))
    ensures Get(Collect(ws, isAbs), h) == LastPathFor(ws, isAbs, h)
    decreases |ws|
  {
    if ws != [] {
      var init := ws[..|ws| - 1];
      CollectMeaning(init, isAbs, h);
      match WindowEntry(ws[|ws| - 1], isAbs)
      case None =>
      case Some(e) => PutGet(Collect(init, isAbs), e.0, e.1, h);
    }
  }

  /** A handle is in the dict exactly when some usable window has it. */
  lemma {:induction false} LastPathForSome(ws: seq<ShellWindow>, isAbs: string -> bool, h: int)
    ensures LastPathFor(ws, isAbs, h).Some? <==>
              exists i :: 0 <= i < |ws| && WindowEntry(ws[i], isAbs).Some? && WindowEntry(ws[i], isAbs).value.0 == h
    decreases |ws|
  {
    if ws != [] {
      var init := ws[..|ws| - 1];
      LastPathForSome(init, isAbs, h);
      if exists i :: 0 <= i < |ws| && WindowEntry(ws[i], isAbs).Some? && WindowEntry(ws[i], isAbs).value.0 == h {
        var i :| 0 <= i < |ws| && WindowEntry(ws[i], isAbs).Some? && WindowEntry(ws[i], isAbs).value.0 == h;
        if i < |ws| - 1 {
          assert init[i] == ws[i];
        }
      }
      if exists i :: 0 <= i < |init| && WindowEntry(init[i], isAbs).Some? && WindowEntry(init[i], isAbs).value.0 == h {
        var i :| 0 <= i < |init| && WindowEntry(init[i], isAbs).Some? && WindowEntry(init[i], isAbs).value.0 == h;
        assert ws[i] == init[i];
      }
    }
  }

  /** The loop of `list_explorer_windows_win`. */
  method ListExplorerWindowsWin(shell: Shell, isAbs: string -> bool) returns (mapping: WindowMap)
    ensures mapping == ExplorerWindows(shell, isAbs)
  {
    mapping := [];
    if shell.DispatchFailed? {
      return;
    }
    var ws := shell.ws;
    var i := 0;
    while i < |ws|
      invariant 0 <= i <= |ws|
      invariant mapping == Collect(ws[..i], isAbs)
    {
      assert ws[..i + 1][..i] == ws[..i];
      var entry := WindowEntry(ws[i], isAbs);
      if entry.Some? {
        mapping := Put(mapping, entry.value.0, entry.value.1);
      }
      i := i + 1;
    }
    assert ws[..i] == ws;
    // A raise of the enumeration after `ws` ends the loop; the dict is kept.
  }

  /** The windows for which a cycle records a visit: new handles and handles whose
      path changed since the previous cycle, in dict order. */
  function ChangedWindows(last: WindowMap, cur: WindowMap): WindowMap
    decreases |cur|
  {
    if cur == [] then []
    else
      var rest := ChangedWindows(last, cur[1..]);
      if Get(last, cur[0].0) != Some(cur[0].1) then [cur[0]] + rest else rest
  }

  function Paths(d: WindowMap): (r: seq<string>)
    ensures |r| == |d| && forall i :: 0 <= i < |d| ==> r[i] == d[i].1
  {
    seq(|d|, i requires 0 <= i < |d| => d[i].1)
  }

  /** An entry is reported exactly when it is in the current dict and the previous
      dict did not map its handle to the same path. */
  lemma {:induction false} ChangedWindowsIff(last: WindowMap, cur: WindowMap, e: (int, string))
    ensures e in ChangedWindows(last, cur) <==> e in cur && Get(last, e.0) != Some(e.1)
    decreases |cur|
  {
    if cur != [] {
      ChangedWindowsIff(last, cur[1..], e);
      assert cur == [cur[0]] + cur[1..];
    }
  }

  /** Each handle is reported at most once: the reported entries are a subsequence
      of the current dict. */
  lemma {:induction false} ChangedWindowsDistinct(last: WindowMap, cur: WindowMap)
    requires DistinctKeys(cur)
    ensures DistinctKeys(ChangedWindows(last, cur))
    ensures forall e :: e in ChangedWindows(last, cur) ==> e in cur
    decreases |cur|
  {
    if cur != [] {
      var tail := cur[1..];
      assert DistinctKeys(tail) by {
        forall i, j | 0 <= i < j < |tail| ensures tail[i].0 != tail[j].0 {
          assert tail[i] == cur[i + 1] && tail[j] == cur[j + 1];
        }
      }
      ChangedWindowsDistinct(last, tail);
      var rest := ChangedWindows(last, tail);
      forall e | e in rest ensures e.0 != cur[0].0 {
        var j :| 0 <= j < |tail| && tail[j] == e;
        assert cur[j + 1] == e;
      }
      if Get(last, cur[0].0) != Some(cur[0].1) {
        var r := [cur[0]] + rest;
        forall i, j | 0 <= i < j < |r| ensures r[i].0 != r[j].0 {
          if i == 0 {
            assert r[j] == rest[j - 1] && r[j] in rest;
          } else {
            assert r[i] == rest[i - 1] && r[j] == rest[j - 1];
          }
        }
      }
    }
  }

  /** Seeing the same dict twice in a row reports nothing the second time. */
  lemma {:induction false} SameWindowsNoEvents(prev: WindowMap, cur: WindowMap)
    requires DistinctKeys(prev)
    requires forall e :: e in cur ==> e in prev
    ensures ChangedWindows(prev, cur) == []
    decreases |cur|
  {
    if cur != [] {
      assert cur[0] in cur;
      var i :| 0 <= i < |prev| && prev[i] == cur[0];
      GetEntry(prev, i);
      forall e | e in cur[1..] ensures e in prev {
        var j :| 0 <= j < |cur[1..]| && cur[1..][j] == e;
        assert cur[j + 1] == e;
      }
      SameWindowsNoEvents(prev, cur[1..]);
    }
  }

  /** Two polls that list the same windows: the second one records nothing. */
  lemma RepeatedPollNoEvents(shell: Shell, isAbs: string -> bool)
    ensures ChangedWindows(ExplorerWindows(shell, isAbs), ExplorerWindows(shell, isAbs)) == []
  {
    var d := ExplorerWindows(shell, isAbs);
    if shell.Enumerated? {
      CollectMeaning(shell.ws, isAbs, 0);
    }
    SameWindowsNoEvents(d, d);
  }

  /** Adding one more entry of the current dict: the loop's step. */
  lemma {:induction false} ChangedWindowsAppend(last: WindowMap, cur: WindowMap, e: (int, string))
    ensures ChangedWindows(last, cur + [e])
            == ChangedWindows(last, cur) + (if Get(last, e.0) != Some(e.1) then [e] else [])
    decreases |cur|
  {
    if cur == [] {
      assert [] + [e] == [e];
      assert [e][1..] == [];
    } else {
      assert (cur + [e])[0] == cur[0] && (cur + [e])[1..] == cur[1..] + [e];
      ChangedWindowsAppend(last, cur[1..], e);
    }
  }

  /** `resolve_lnk_win`: the shortcut's target, or the shortcut itself when the
      target is empty or cannot be read. */
  function ResolveLnk(path: string, target: string -> Com<string>): (r: string)
    ensures target(path) == Raised ==> r == path
    ensures target(path).Value? && target(path).v != [] ==> r == target(path).v
    ensures target(path) == Value([]) ==> r == path
    ensures r == path || (r != [] && target(path) == Value(r))
  {
    match target(path)
    case Raised => path
    case Value(t) => if t == [] then path else t
  }

  /** The position of the newest file: Python's `max` keeps the first of equal
      maxima. */
  function Latest(files: seq<string>, mtime: string -> int): (i: nat)
    requires files != []
    ensures i < |files|
    ensures forall j :: 0 <= j < |files| ==> mtime(files[j]) <= mtime(files[i])
    ensures forall j :: 0 <= j < i ==> mtime(files[j]) < mtime(files[i])
    decreases |files|
  {
    if |files| == 1 then 0
    else
      var k := Latest(files[..|files| - 1], mtime);
      if mtime(files[|files| - 1]) > mtime(files[k]) then |files| - 1 else k
  }

  /** `get_recent_mtime()`: `files` is the `*.lnk` listing followed by the `*.url`
      listing of the Recent folder and `mtime` is `os.path.getmtime`. */
  function GetRecentMtime(files: seq<string>, mtime: string -> int): (r: (Option<string>, int))
    ensures files == [] <==> r.0 == None
    ensures files == [] ==> r.1 == 0
    ensures r.0.Some? ==> r.0.value in files && r.1 == mtime(r.0.value)
    ensures r.0.Some? ==> forall f :: f in files ==> mtime(f) <= r.1
  {
    if files == [] then (None, 0)
    else
      var i := Latest(files, mtime);
      (Some(files[i]), mtime(files[i]))
  }

  /** One Recent-folder step from baseline `baseline`: the path to record, if any,
      and the new baseline. */
  function RecentStep(baseline: int, item: Option<string>, mtime: int,
                      target: string -> Com<string>, pathExists: string -> bool): (r: (Option<string>, int))
  {
    if mtime > baseline && item.Some? && item.value != [] then
      var event :=
        if EndsWith(LowerAscii(item.value), ".lnk") then
          var t := ResolveLnk(item.value, target);
          if pathExists(t) then Some(t) else None
        else None;
      (event, mtime)
    else (None, baseline)
  }

  /** Nothing newer: no visit and the same baseline. */
  lemma RecentNoChange(baseline: int, item: Option<string>, mtime: int,
                       target: string -> Com<string>, pathExists: string -> bool)
    requires mtime <= baseline || item.None?
    ensures RecentStep(baseline, item, mtime, target, pathExists) == (None, baseline)
  {
  }

  /** The baseline never goes down, and moves exactly when a newer item is seen. */
  lemma RecentBaseline(baseline: int, item: Option<string>, mtime: int,
                       target: string -> Com<string>, pathExists: string -> bool)
    ensures var r := RecentStep(baseline, item, mtime, target, pathExists);
            r.1 >= baseline
            && (r.1 != baseline <==> mtime > baseline && item.Some? && item.value != [])
  {
  }

  /** A newer shortcut whose target exists is one visit of that target. */
  lemma RecentShortcut(baseline: int, item: string, mtime: int,
                       target: string -> Com<string>, pathExists: string -> bool)
    requires mtime > baseline && item != []
    requires EndsWith(LowerAscii(item), ".lnk")
    requires pathExists(ResolveLnk(item, target))
    ensures RecentStep(baseline, Some(item), mtime, target, pathExists) == (Some(ResolveLnk(item, target)), mtime)
  {
  }

  /** A newer `.url` item, or a shortcut whose target is gone, records nothing but
      still moves the baseline. */
  lemma RecentSkipped(baseline: int, item: string, mtime: int,
                      target: string -> Com<string>, pathExists: string -> bool)
    requires mtime > baseline && item != []
    requires !EndsWith(LowerAscii(item), ".lnk") || !pathExists(ResolveLnk(item, target))
    ensures RecentStep(baseline, Some(item), mtime, target, pathExists) == (None, mtime)
  {
  }

  /** The state `monitor_windows` keeps between cycles. */
  class WindowsMonitor {
    var lastMap: WindowMap
    var recentLastMtime: int

    /** Start-up: no windows seen yet, and the newest Recent item as baseline. */
    constructor (files: seq<string>, mtime: string -> int)
      ensures lastMap == [] && recentLastMtime == GetRecentMtime(files, mtime).1
    {
      lastMap := [];
      var (_, m) := GetRecentMtime(files, mtime);
      recentLastMtime := m;
    }

    /** Step 1 of a cycle: record every window that is new or shows a new path, then
        remember the current windows. */
    method PollWindows(db: FootprintsDB, shell: Shell, isAbs: string -> bool,
                       fs: FileSystem, writable: nat -> bool, now: nat -> nat)
      modifies this, db
      ensures lastMap == ExplorerWindows(shell, isAbs)
      ensures recentLastMtime == old(recentLastMtime)
      ensures db.table == RecordPaths(old(db.table), db.flavour, fs,
                                      Paths(ChangedWindows(old(lastMap), lastMap)), writable, now)
    {
      var cur := ListExplorerWindowsWin(shell, isAbs);
      var i := 0;
      while i < |cur|
        invariant 0 <= i <= |cur|
        invariant lastMap == old(lastMap) && recentLastMtime == old(recentLastMtime)
        invariant db.table == RecordPaths(old(db.table), db.flavour, fs,
                                          Paths(ChangedWindows(lastMap, cur[..i])), writable, now)
      {
        var (hwnd, path) := cur[i];
        ChangedWindowsAppend(lastMap, cur[..i], cur[i]);
        assert cur[..i + 1] == cur[..i] + [cur[i]];
        var before := Paths(ChangedWindows(lastMap, cur[..i]));
        if Get(lastMap, hwnd) != Some(path) {
          assert Paths(ChangedWindows(lastMap, cur[..i + 1])) == before + [path];
          RecordPathsAppend(old(db.table), db.flavour, fs, before, path, writable, now);
          var _ := db.RecordAnything(path, fs, writable(|before|), now(|before|));
        } else {
          assert ChangedWindows(lastMap, cur[..i + 1]) == ChangedWindows(lastMap, cur[..i]);
        }
        i := i + 1;
      }
      assert cur[..i] == cur;
      lastMap := cur;
    }

    /** Step 2 of a cycle: look at the newest Recent item. */
    method PollRecent(db: FootprintsDB, files: seq<string>, mtime: string -> int,
                      target: string -> Com<string>, pathExists: string -> bool,
                      fs: FileSystem, writable: bool, now: nat)
      modifies this, db
      ensures var (item, m) := GetRecentMtime(files, mtime);
              var (event, baseline) := RecentStep(old(recentLastMtime), item, m, target, pathExists);
              && recentLastMtime == baseline
              && db.table == (if event.Some? then Record(old(db.table), db.flavour, fs, event.value, writable, now).table
                              else old(db.table))
      ensures lastMap == old(lastMap)
    {
      var (item, m) := GetRecentMtime(files, mtime);
      if m > recentLastMtime && item.Some? && item.value != [] {
        if EndsWith(LowerAscii(item.value), ".lnk") {
          var t := ResolveLnk(item.value, target);
          if pathExists(t) {
            var _ := db.RecordAnything(t, fs, writable, now);
          }
        }
        recentLastMtime := m;
      }
    }

    /** One iteration of the `while True` loop, without the sleep. Calls of
        `record_anything` are numbered in the order they happen: the windows'
        first, then the Recent item's, number `k`. */
    method Cycle(db: FootprintsDB, shell: Shell, isAbs: string -> bool,
                 files: seq<string>, mtime: string -> int,
                 target: string -> Com<string>, pathExists: string -> bool,
                 fs: FileSystem, writable: nat -> bool, now: nat -> nat)
      modifies this, db
      ensures lastMap == ExplorerWindows(shell, isAbs)
      ensures var changed := Paths(ChangedWindows(old(lastMap), lastMap));
              var seen := RecordPaths(old(db.table), db.flavour, fs, changed, writable, now);
              var k := |changed|;
              var (item, m) := GetRecentMtime(files, mtime);
              var (event, baseline) := RecentStep(old(recentLastMtime), item, m, target, pathExists);
              && recentLastMtime == baseline
              && db.table == (if event.Some? then Record(seen, db.flavour, fs, event.value, writable(k), now(k)).table
                              else seen)
    {
      var k := |ChangedWindows(lastMap, ExplorerWindows(shell, isAbs))|;
      PollWindows(db, shell, isAbs, fs, writable, now);
      PollRecent(db, files, mtime, target, pathExists, fs, writable(k), now(k));
    }
  }
}
