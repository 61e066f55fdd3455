# Footprints Navigator in Dafny

Footprints Navigator keeps a per-user history of the folders and files that
were visited. Its core has three parts, and each is modelled here:

- **The footprints store** (database.py). `record_anything` canonicalises a
  path, derives a display name and a type, and upserts one row of the
  `footprints` table. The table is keyed by path. `get_stats` counts the rows.
- **The Windows monitor** (main.py). `file_url_to_path_win` turns an Explorer
  `file:` URL into a Windows path. `list_explorer_windows_win` maps window
  handles to paths, and `resolve_lnk_win` follows shortcuts. Each cycle of
  `monitor_windows` has two steps:
  - the window step records windows that are new or show a new path;
  - the Recent step looks at the newest item of the Recent folder once it is
    newer than the last one seen. For a `.lnk` it records the shortcut's
    target, or the shortcut itself when the target is empty or cannot be
    read, and only if that path exists. Any other item records nothing. In
    every case the baseline moves to the new item's time.
- **The search window** (search.py). `search` resolves the order key, filters
  the table with `LIKE '%query%'` on name or path, sorts and keeps 300 rows.
  `sort_column` sets the order key from a column header.

## Modules

| module | file | contents |
|---|---|---|
| `Strings` | strings.dfy | ASCII case folding, prefixes and suffixes, substrings, `str.replace`, `find`/`rfind` |
| `PathNames` | pathnames.dfy | pathlib's `name` and `suffix`, the type labels, the classification chain, the display name |
| `Footprints` | footprints.dfy | the table as a `map`, the upsert, `record_anything` as a function, the class `FootprintsDB` |
| `Percent` | percent.dfy | `urllib.parse.unquote` with UTF-8 decoding and `errors="replace"`; percent-encoding as its partner |
| `FileUrl` | fileurl.dfy | the part of `urlparse` for `file:` URLs, and `file_url_to_path_win` |
| `Monitor` | monitor.dfy | the shell-window dict, the Recent-folder step, and the class `WindowsMonitor` |
| `SqlLike` | like.dfy | SQLite's `LIKE` without `ESCAPE` |
| `Collation` | collation.dfy | SQLite's `BINARY` and `NOCASE` text order |
| `Search` | search.dfy | the key resolution, the query `SearchRows`, the class `FootprintsSearchUI` |

## Modelling choices

- **State.** The table of each `FootprintsDB` is a `map<string, Row>` field.
  `RecordAnything` changes that field. The function `Footprints.Record` is its
  specification, and the lemmas about the store are stated on `Record`.
- **Errors.** Python exceptions become explicit inputs:
  - the filesystem oracle `FileSystem` returns `None` where `resolve` or
    `is_dir` would raise;
  - `writable = false` stands for a failing database write. Each call of
    `record_anything` opens its own connection, so within a monitor cycle
    call number `i` has its own flag `writable(i)`;
  - `Com<T>` is a COM property read that may raise;
  - `Shell` is what `list_explorer_windows_win` gets from COM: either the
    dispatch fails, or the enumeration delivers some windows and then
    possibly raises. The outer `except: pass` then returns the windows
    collected so far;
  - `available = false` is a failing search query.

  Each `except` branch of the modelled code is an ordinary branch of the
  model, apart from those listed under "Left out".
- **Time.** `datetime.now()`, `os.path.getmtime` and the clock are integers
  passed in. Within a monitor cycle, call number `i` of `record_anything`
  reads the clock as `now(i)`. `last_visit` is stored as a number of seconds. Its text form
  `%Y-%m-%d %H:%M:%S` sorts the same way.
- **The Python dict of window handles** is a sequence of pairs in insertion
  order with unique keys (`WindowMap`), so "in dict order" can be stated.
- **Scan order.** The order in which SQLite reads the table is not observable.
  It is an input `scan` that lists every path once. `ORDER BY` is a stable
  insertion sort over that scan. The lemmas claim only what SQLite
  guarantees:
  - the rows are sorted by the key;
  - they are matching rows of the table, and no path appears twice;
  - their number is `min(300, matches)`;
  - no matching row that is left out ranks before a row that is shown.
- **Type of a repeated visit.** database.py:89-92 overwrites only
  `visit_count`, `last_visit` and `name`; `type` keeps the value of the first
  visit (`Footprints.RecordKnownPath`).
- **Header clicks.** The headers "Count" and "LastVisit" give the keys
  `count` and `lastvisit` (search.py:88, 201). These are not keys of
  `order_map`, so they sort by last visit. `Search.HeaderOrders` states this as
  the behaviour of the code.
- **A host beginning with ':'.** In `file_url_to_path_win`, the drive-letter
  rule also fires for a host whose decoded text starts with `:`. The result
  then loses one of its two leading backslashes. `FileUrl.FileUrlUncPrefix`
  states this case as it is.

## Model

| member | source | states |
|---|---|---|
| Footprints.Record | database.py:55-99 | an empty argument gives `Skipped` and the same table; every outcome other than `Recorded` leaves the table as it was; a recorded path is the canonical path, and the keys grow by exactly that path |
| Footprints.Upsert | database.py:86-93 | the keys afterwards are the old keys plus the recorded path |
| Footprints.RecordNewPath | database.py:86-88 | the first visit of a path adds exactly one row: the derived name and type, count 1 and the current time; the row count grows by one |
| Footprints.RecordKnownPath | database.py:89-92 | a later visit adds one to the count and replaces the time and the name; the type of the first visit stays; the row count stays |
| Footprints.RecordFrame | database.py:86-93 | the row of every other path is unchanged |
| Footprints.RecordFailureKeepsTable | database.py:97-99 | an empty argument, a failing resolve or `is_dir`, or a failing write leaves the table unchanged, with outcome `Skipped` or `Failed` |
| Footprints.RecordCount | database.py:86-93 | the row count grows by one exactly when a path not yet present is recorded, and otherwise stays |
| Footprints.RecordMonotone | database.py:89-90 | no row disappears and no visit count goes down |
| Footprints.RecordPreservesWellFormed | database.py:71-93 | the table invariant is kept: counts at least 1, the name derived from the key, the type Folder or the type the name gives |
| Footprints.RecordAllKnown | database.py:89-92 | N visits of a path already present add N to its count and leave the time of the last visit |
| Footprints.RecordAllNew | database.py:86-93 | N visits of a new path leave one new row with count N and every other row as it was |
| Footprints.RecordRepeatedFromEmpty | database.py:86-93 | N visits from an empty table leave exactly one row, with count N |
| Footprints.RecordVisitCount | database.py:86-99 | one call adds one to the visit count of a path exactly when its argument is non-empty, resolves to that path, `is_dir` answers and the write succeeds; otherwise the count stays |
| Footprints.RecordPathsVisitCount | database.py:86-99 | over a run of calls, the visit count of a path grows by exactly the number of calls that write its row |
| Footprints.RecordPathsFailing | database.py:97-99 | a run of calls whose writes all fail leaves the table as it was |
| Footprints.RecordPathsMonotone | database.py:86-93 | a run of calls removes no row and lowers no visit count |
| Footprints.FootprintsDB.constructor | database.py:31-47 | opening the database keeps the rows already stored |
| Footprints.FootprintsDB.RecordAnything | database.py:55-99 | the new table and the outcome are those of `Record` on the old table |
| Footprints.FootprintsDB.GetStats | database.py:101-104 | returns the number of rows |
| PathNames.ClassifyIsSuffixChain | database.py:74-81 | the type is chosen first-match: a directory is Folder; otherwise a `.lnk` suffix (any ASCII case) is a shortcut and a `.url` suffix a web shortcut; everything else is File; each case holds in both directions |
| PathNames.SuffixMatchIff | database.py:76-78 | `suffix.lower() == ext` holds exactly when the name ends with `ext` (ignoring ASCII case) and has a character before it |
| PathNames.BaseNameMeaning | database.py:71 | the basename is the separator-free tail of the path after its last separator |
| PathNames.DisplayNameMeaning | database.py:71 | the name is the basename, or the whole path when the basename is empty; it is never empty for a non-empty path |
| Percent.DecodeEncode | main.py:19 | UTF-8 decoding with replacement undoes UTF-8 encoding |
| Percent.UnquotePlainPrefix | main.py:19 | `unquote` leaves a prefix of ASCII characters without `%` alone |
| Percent.UnquotePercentEncodeRoundTrip | main.py:19 | `unquote` inverts percent-encoding for every string |
| FileUrl.SchemeIsFile | main.py:16-17 | the scheme is `file` (ignoring ASCII case) exactly when the cleaned URL starts with `file:` |
| FileUrl.FileUrlNone | main.py:15-17 | the result is None exactly for the empty string and for URLs whose scheme is not `file` |
| FileUrl.FileUrlNoSlash | main.py:19 | a result never contains `/` |
| FileUrl.WinPathNoSlash | main.py:18-20 | the conversion of a host and a path never contains `/` |
| FileUrl.FileUrlUncPrefix | main.py:18-20 | with a host the result starts with `\`, and with `\\` unless the decoded host begins with `:`; with a plain host it starts with `\\` followed by the host |
| FileUrl.FileUrlUncHost | main.py:18-20 | with a plain host (ASCII, no `%`, no delimiters, not starting with `:`) the result starts with `\\` followed by the host, for every path |
| FileUrl.DriveRoundTrip | main.py:14-21 | the URL `file:///` + the percent-encoded drive path converts back to that drive path |
| FileUrl.UncRoundTrip | main.py:14-21 | the URL `file://host/` + the percent-encoded path converts to `\\host\` + that path |
| FileUrl.PlainDriveUrl | main.py:14-21 | a plain drive URL such as `file:///C:/x` converts to the path with backslashes, `C:\x` |
| Monitor.CollectMeaning | main.py:27-34 | every handle appears once in the dict, and maps to the path of the last usable window with that handle |
| Monitor.LastPathForSome | main.py:33-34 | a handle is in the dict exactly when some usable window has it |
| Monitor.PutGet | main.py:34 | after `d[k] = v` the key maps to `v`, the other keys are as before, and keys stay unique |
| Monitor.ListExplorerWindowsWin | main.py:23-37 | the loop builds the dict of `ExplorerWindows`: empty when the dispatch raises, and the windows delivered so far when the enumeration raises |
| Monitor.ResolveLnk | main.py:39-43 | the result is the shortcut's target when it can be read and is non-empty; for an empty target or a raise it is the shortcut path itself; it is never an empty target |
| Monitor.Latest | main.py:56 | the index of a file with the largest mtime, the first of equal maxima |
| Monitor.GetRecentMtime | main.py:53-57 | `(None, 0)` exactly when there are no `.lnk`/`.url` files; otherwise one of the files together with its mtime, and no file is newer |
| Monitor.ChangedWindowsIff | main.py:65-67 | an entry is recorded exactly when it is in the current dict and the previous dict did not map its handle to that path |
| Monitor.ChangedWindowsDistinct | main.py:65-67 | each handle is recorded at most once per cycle, and only entries of the current dict are recorded |
| Monitor.ChangedWindowsAppend | main.py:65-67 | one more entry of the loop adds at most that entry to the recorded ones |
| Monitor.SameWindowsNoEvents | main.py:64-68 | a dict whose entries all appear in the previous dict records nothing |
| Monitor.RepeatedPollNoEvents | main.py:64-68 | two cycles that list the same windows: the second records nothing |
| Monitor.RecentNoChange | main.py:72 | with nothing newer there is no visit and the baseline stays |
| Monitor.RecentBaseline | main.py:72-76 | the baseline never goes down, and it moves exactly when a newer item is seen |
| Monitor.RecentShortcut | main.py:73-75 | a newer `.lnk` whose target exists is one visit of that target |
| Monitor.RecentSkipped | main.py:72-76 | a newer `.url`, or a shortcut whose target is missing, records nothing but still moves the baseline |
| Monitor.WindowsMonitor.constructor | main.py:51-59 | no windows have been seen yet, and the baseline is the mtime of the newest Recent item |
| Monitor.WindowsMonitor.PollWindows | main.py:64-68 | records the paths of the new or changed windows in dict order, call `i` with its own write flag and time; the remembered dict becomes exactly the current one; the baseline is not touched |
| Monitor.WindowsMonitor.PollRecent | main.py:71-76 | records at most the one item `RecentStep` gives, and sets the baseline it gives; the remembered dict is not touched |
| Monitor.WindowsMonitor.Cycle | main.py:61-78 | one cycle is the window step followed by the Recent step; the Recent call comes after the window calls in the numbering of write flags and times |
| SqlLike.LikeLiteral | search.py:146 | a pattern part without wildcards matches a text prefix of its length, ignoring ASCII case |
| SqlLike.LikeLeadingPercent | search.py:146 | a leading `%` lets the rest match any tail of the text |
| SqlLike.LikeContains | search.py:146 | for a query without `%` and `_`, `t LIKE '%q%'` is substring search ignoring ASCII case, in both directions |
| SqlLike.LikeEmptyQuery | search.py:129 | `%%` matches every text |
| Collation.StrLeTotal | search.py:133-136 | the text order is total |
| Collation.StrLeTrans | search.py:133-136 | the text order is transitive |
| Collation.StrLeAntisymmetric | search.py:133-136 | the text order is antisymmetric |
| Search.KeyLeTotal | search.py:131-137 | the order of each of the five clauses is total |
| Search.KeyLeTrans | search.py:131-137 | the order of each of the five clauses is transitive |
| Search.InitialOrder | search.py:31-37 | the initial key `last_visit_desc` resolves to `last_visit DESC` |
| Search.NameKeys | search.py:131-138 | `name` and `name_desc` resolve to `name COLLATE NOCASE ASC` |
| Search.TypeKeys | search.py:131-138 | `type` and `type_desc` resolve to `type ASC` |
| Search.VisitCountKeys | search.py:131-138 | `visit_count` and `visit_count_desc` resolve to `visit_count DESC` |
| Search.LastVisitKeys | search.py:131-138 | `last_visit` and `last_visit_desc` resolve to `last_visit DESC` |
| Search.PathKeys | search.py:131-138 | `path` and `path_desc` resolve to `path ASC` |
| Search.OrderFallback | search.py:138 | any key without `_` other than `name`, `type` and `path` resolves to `last_visit DESC` |
| Search.HeaderOrders | search.py:199-202 | of the five headers, Name, Type and Path sort by their column; Count and LastVisit sort by last visit |
| Search.EmptyQueryMatchesAll | search.py:129 | an empty entry matches every row of the table |
| Search.MatchesContains | search.py:146 | a row matches a query without wildcards exactly when its name or its path contains the query, ignoring ASCII case |
| Search.WhereMeaning | search.py:144-146 | the filtered rows are rows of the table and match the entry; every matching path of the scan appears in them |
| Search.WhereCount | search.py:144-146 | there are as many filtered rows as matching paths |
| Search.SortByPerm | search.py:147 | sorting is a permutation of its input |
| Search.SortBySorted | search.py:147 | the sorted rows are in the order of the resolved key |
| Search.SearchFromStore | search.py:143-149 | every row shown is the table's row for its path and matches the entry; no path is shown twice |
| Search.SearchCount | search.py:147 | the number of rows shown is `min(300, number of matching rows)` |
| Search.SearchSorted | search.py:147 | the rows shown are in the order of the resolved key |
| Search.SearchTop | search.py:147 | a matching row either is shown or has every shown row ranked no later than itself |
| Search.EmptyQueryCount | search.py:129 | with an empty entry, `min(300, row count)` rows are shown |
| Search.FootprintsSearchUI.constructor | search.py:30-37 | the key starts as `last_visit_desc`, and a first search runs with the empty entry |
| Search.FootprintsSearchUI.Search | search.py:126-156 | on success the rows shown are `SearchRows` and the status counts them; on an exception the rows stay and the status shows the error; the key is unchanged |
| Search.FootprintsSearchUI.SortColumn | search.py:199-202 | the key becomes the lower-cased column name, then the search runs again |

## Left out

- The Tk user interface is not modelled: widgets, layout, `_on_resize`, the context menu, opening items, copying paths and the single-instance check. These are UI and shell calls.
- COM is not modelled. `win32com` window enumeration and `CreateShortcut` become the inputs `Shell` (the windows delivered, and whether the enumeration raised after them) and `target`.
- `os.path.isabs`, `os.path.exists`, `glob` and `os.path.getmtime` are oracles and inputs. `getmtime` raising for a file removed between the listing and the call is not modelled.
- `Path.expanduser().resolve(strict=False)` and `is_dir()` are the oracle `FileSystem`. Their own logic (symlinks, the working directory, home directories) is filesystem-dependent.
- The daemon thread, `time.sleep`, `start_monitoring`, `monitor_mac` and the loop-level `except` that prints and continues are not modelled, because they are concurrency and timing. `Cycle` models one iteration of the loop body.
- SQLite itself is not modelled: WAL and `synchronous` pragmas, the 30-second lock timeout, connections, indexes and atomicity across processes. The table is a map and each call is one atomic step.
- `print` of error messages is not modelled. The outcome `Failed` and the status `Error` stand for them.
- The `last_visit` column is a number of seconds rather than the `%Y-%m-%d %H:%M:%S` text; the two orders agree for the years this format covers.
- Monitor.GetRecentMtime: mtimes are integers rather than floats.
- Strings.LowerAscii: Python's `str.lower()` is Unicode-aware. The model folds ASCII letters only, in `suffix.lower()`, `FullName.lower()`, `item.lower()`, the scheme comparison and `col.lower()`.
- FileUrl.UrlSplit: only the parts of `urlsplit` that `file_url_to_path_win` reads are modelled. These are the scheme, the network location, the path, the query and the fragment. Netloc validation (`[` and `]` checks, ports, the `ValueError` it may raise) is left out. `urlparse` splits `;params` only for schemes that `file` is not one of, so the path keeps them, as here.
- SqlLike.Like: the `ESCAPE` clause and ICU-style Unicode case folding are left out; SQLite's built-in `LIKE` folds ASCII only, which is what is modelled.
- Search.SortBy: SQLite leaves the order of rows with equal keys unspecified; the model keeps them in scan order, and no lemma relies on that choice.
- The text of the exception in `Error: {e}` is not modelled.
- Footprints.FootprintsDB.GetStats: `get_stats` runs its query outside any `try`, so a locked or failing database raises to the caller. The model always returns the row count and does not model that exception.
