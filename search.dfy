/** `FootprintsSearchUI.search` and `sort_column` (search.py): the order key is
    resolved against a five-entry map, then one query filters the table with
    `LIKE`, sorts it and keeps the first 300 rows. */
module Search {
  import opened Strings
  import opened PathNames
  import opened Footprints
  import opened SqlLike
  import opened Collation

  /** One result row, `SELECT name, type, visit_count, last_visit, path`. */
  datatype Hit = Hit(name: string, typeLabel: string, visitCount: int, lastVisit: nat, path: string)

  /** The row the table stores for path `p`. */
  function HitOf(t: Table, p: string): Hit
    requires p in t
  {
    Hit(t[p].name, Label(t[p].kind), t[p].visitCount, t[p].lastVisit, p)
  }

  /** The five `ORDER BY` clauses of `order_map`. */
  datatype Order = NameNoCaseAsc | TypeAsc | VisitCountDesc | LastVisitDesc | PathAsc

  /** The key the window starts with. */
  const InitialKey := "last_visit_desc"

  /** The `LIMIT` of the query. */
  const Limit := 300

  /** `order_map.get(order_key.replace("_desc", ""), "last_visit DESC")`. */
  function OrderFor(key: string): Order
  {
    var k := RemoveAll(key, "_desc");
    if k == "name" then NameNoCaseAsc
    else if k == "type" then TypeAsc
    else if k == "visit_count" then VisitCountDesc
    else if k == "last_visit" then LastVisitDesc
    else if k == "path" then PathAsc
    else LastVisitDesc
  }

  /** `a` may be listed before `b` under order `o`. */
  predicate KeyLe(o: Order, a: Hit, b: Hit)
  {
    match o
    case NameNoCaseAsc => NoCaseLe(a.name, b.name)
    case TypeAsc => StrLe(a.typeLabel, b.typeLabel)
    case VisitCountDesc => a.visitCount >= b.visitCount
    case LastVisitDesc => a.lastVisit >= b.lastVisit
    case PathAsc => StrLe(a.path, b.path)
  }

  lemma KeyLeTotal(o: Order, a: Hit, b: Hit)
    ensures KeyLe(o, a, b) || KeyLe(o, b, a)
  {
    match o
    case NameNoCaseAsc => StrLeTotal(LowerAscii(a.name), LowerAscii(b.name));
    case TypeAsc => StrLeTotal(a.typeLabel, b.typeLabel);
    case VisitCountDesc =>
    case LastVisitDesc =>
    case PathAsc => StrLeTotal(a.path, b.path);
  }

  lemma KeyLeTrans(o: Order, a: Hit, b: Hit, c: Hit)
    requires KeyLe(o, a, b) && KeyLe(o, b, c)
    ensures KeyLe(o, a, c)
  {
    match o
    case NameNoCaseAsc => StrLeTrans(LowerAscii(a.name), LowerAscii(b.name), LowerAscii(c.name));
    case TypeAsc => StrLeTrans(a.typeLabel, b.typeLabel, c.typeLabel);
    case VisitCountDesc =>
    case LastVisitDesc =>
    case PathAsc => StrLeTrans(a.path, b.path, c.path);
  }

  predicate Sorted(o: Order, s: seq<Hit>)
  {
    forall i, j :: 0 <= i < j < |s| ==> KeyLe(o, s[i], s[j])
  }

  /** `WHERE name LIKE ? OR path LIKE ?` with both parameters `f"%{query}%"`. */
  predicate Matches(query: string, h: Hit)
  {
    Like("%" + query + "%", h.name) || Like("%" + query + "%", h.path)
  }

  /** `scan` visits every path of the table exactly once. The order in which
      SQLite reads the table is not observable and is an input here. */
  predicate IsScan(t: Table, scan: seq<string>)
  {
    && (forall i :: 0 <= i < |scan| ==> scan[i] in t)
    && (forall p :: p in t ==> p in scan)
    && (forall i, j :: 0 <= i < j < |scan| ==> scan[i] != scan[j])
  }

  /** The rows of the scan that satisfy the `WHERE` clause, in scan order. */
  function Where(t: Table, query: string, scan: seq<string>): seq<Hit>
    requires forall i :: 0 <= i < |scan| ==> scan[i] in t
  {
    if scan == [] then []
    else
      var rest := Where(t, query, scan[..|scan| - 1]);
      var h := HitOf(t, scan[|scan| - 1]);
      if Matches(query, h) then rest + [h] else rest
  }

  /** Inserts `h` after every row that may precede it. */
  function Insert(o: Order, h: Hit, s: seq<Hit>): (r: seq<Hit>)
    ensures |r| == |s| + 1
  {
    if s == [] then [h]
    else if !KeyLe(o, s[0], h) then [h] + s
    else [s[0]] + Insert(o, h, s[1..])
  }

  /** A stable sort by `o`: the `ORDER BY` clause, with ties left in scan order. */
  function SortBy(o: Order, s: seq<Hit>): (r: seq<Hit>)
    ensures |r| == |s|
  {
    if s == [] then [] else Insert(o, s[|s| - 1], SortBy(o, s[..|s| - 1]))
  }

  function Min(a: int, b: int): int
  {
    if a <= b then a else b
  }

  /** The rows `search` fetches for the entry text `query` and the current
      `order_key`. */
  function SearchRows(t: Table, scan: seq<string>, key: string, query: string): seq<Hit>
    requires IsScan(t, scan)
  {
    var s := SortBy(OrderFor(key), Where(t, query, scan));
    s[..Min(Limit, |s|)]
  }

  /** The paths of the table whose row satisfies the `WHERE` clause. */
  function MatchingPaths(t: Table, query: string): set<string>
  {
    set p | p in t && Matches(query, HitOf(t, p))
  }

  // ----- order resolution

  /** A key without an underscore keeps its text, and loses an appended `_desc`. */
  lemma StripPlain(k: string, pat: string)
    requires pat == "_desc" && '_' !in k
    ensures RemoveAll(k, pat) == k
    ensures RemoveAll(k + pat, pat) == k
  {
    RemoveAllPlain(k, [], pat);
    assert k + [] == k;
    RemoveAllHead([], pat);
    assert pat + [] == pat;
    RemoveAllPlain(k, pat, pat);
  }

  /** So does a key `x_y` whose second part does not start with `d`. */
  lemma StripTwoPart(x: string, y: string, pat: string)
    requires pat == "_desc"
    requires '_' !in x && '_' !in y && y != [] && y[0] != 'd'
    ensures RemoveAll(x + ("_" + y), pat) == x + ("_" + y)
  {
    StripPlain(y, pat);
    RemoveAllSkip('_', y, pat);
    RemoveAllPlain(x, "_" + y, pat);
  }

  lemma StripUnderscoreDesc(y: string, pat: string)
    requires pat == "_desc"
    requires '_' !in y && y != [] && y[0] != 'd'
    ensures RemoveAll("_" + (y + pat), pat) == "_" + y
  {
    StripPlain(y, pat);
    RemoveAllSkip('_', y + pat, pat);
  }

  lemma StripTwoPartDesc(x: string, y: string, pat: string)
    requires pat == "_desc"
    requires '_' !in x && '_' !in y && y != [] && y[0] != 'd'
    ensures RemoveAll(x + ("_" + (y + pat)), pat) == x + ("_" + y)
  {
    StripUnderscoreDesc(y, pat);
    RemoveAllPlain(x, "_" + (y + pat), pat);
  }

  lemma VisitCountSpelling()
    ensures "visit_count" == "visit" + ("_" + "count")
    ensures "visit_count_desc" == "visit" + ("_" + ("count" + "_desc"))
  {
  }

  lemma LastVisitSpelling()
    ensures "last_visit" == "last" + ("_" + "visit")
    ensures "last_visit_desc" == "last" + ("_" + ("visit" + "_desc"))
  {
  }

  lemma StripVisitCount(k: string)
    requires k == "visit_count" || k == "visit_count_desc"
    ensures RemoveAll(k, "_desc") == "visit_count"
  {
    VisitCountSpelling();
    if k == "visit_count" {
      StripTwoPart("visit", "count", "_desc");
    } else {
      StripTwoPartDesc("visit", "count", "_desc");
    }
  }

  lemma StripLastVisit(k: string)
    requires k == "last_visit" || k == "last_visit_desc"
    ensures RemoveAll(k, "_desc") == "last_visit"
  {
    LastVisitSpelling();
    if k == "last_visit" {
      StripTwoPart("last", "visit", "_desc");
    } else {
      StripTwoPartDesc("last", "visit", "_desc");
    }
  }

  /** The window starts out in last-visit order. */
  lemma InitialOrder()
    ensures OrderFor(InitialKey) == LastVisitDesc
  {
    LastVisitKeys(InitialKey);
  }

  /** The keys of the map, with or without `_desc`, resolve to their own clause. */
  lemma NameKeys(k: string)
    requires k == "name" || k == "name_desc"
    ensures OrderFor(k) == NameNoCaseAsc
  {
    StripPlain("name", "_desc");
    assert "name_desc" == "name" + "_desc";
  }

  lemma TypeKeys(k: string)
    requires k == "type" || k == "type_desc"
    ensures OrderFor(k) == TypeAsc
  {
    StripPlain("type", "_desc");
    assert "type_desc" == "type" + "_desc";
  }

  lemma PathKeys(k: string)
    requires k == "path" || k == "path_desc"
    ensures OrderFor(k) == PathAsc
  {
    StripPlain("path", "_desc");
    assert "path_desc" == "path" + "_desc";
  }

  lemma VisitCountKeys(k: string)
    requires k == "visit_count" || k == "visit_count_desc"
    ensures OrderFor(k) == VisitCountDesc
  {
    StripVisitCount(k);
  }

  lemma LastVisitKeys(k: string)
    requires k == "last_visit" || k == "last_visit_desc"
    ensures OrderFor(k) == LastVisitDesc
  {
    StripLastVisit(k);
  }

  /** A key without an underscore that is not `name`, `type` or `path` falls
      back to last-visit order. */
  lemma OrderFallback(key: string)
    requires '_' !in key
    requires key != "name" && key != "type" && key != "path"
    ensures OrderFor(key) == LastVisitDesc
  {
    StripPlain(key, "_desc");
    assert "visit_count"[5] == '_' && "last_visit"[4] == '_';
  }

  /** `sort_column(col)` stores `col.lower()`. Of the five column headers, `Count`
      and `LastVisit` are not keys of the map and sort by last visit. */
  lemma HeaderOrders(col: string)
    requires col in ["Name", "Type", "Count", "LastVisit", "Path"]
    ensures OrderFor(LowerAscii(col)) ==
              if col == "Name" then NameNoCaseAsc
              else if col == "Type" then TypeAsc
              else if col == "Path" then PathAsc
              else LastVisitDesc
  {
    var k := LowerAscii(col);
    if col == "Name" {
      assert k == "name";
      NameKeys(k);
    } else if col == "Type" {
      assert k == "type";
      TypeKeys(k);
    } else if col == "Count" {
      assert k == "count";
      OrderFallback(k);
    } else if col == "LastVisit" {
      assert k == "lastvisit";
      OrderFallback(k);
    } else {
      assert k == "path";
      PathKeys(k);
    }
  }

  // ----- the WHERE clause

  /** An empty entry matches every row. */
  lemma EmptyQueryMatches(h: Hit)
    ensures Matches("", h)
  {
    assert "%" + "" + "%" == "%%";
    LikeEmptyQuery(h.name);
  }

  lemma EmptyQueryMatchesAll(t: Table)
    ensures MatchingPaths(t, "") == t.Keys
  {
    forall p | p in t
      ensures p in MatchingPaths(t, "")
    {
      EmptyQueryMatches(HitOf(t, p));
    }
  }

  /** For a query without `%` or `_`, a row matches when its name or its path
      contains the query, ignoring ASCII case. */
  lemma MatchesContains(query: string, h: Hit)
    requires forall i :: 0 <= i < |query| ==> !Wildcard(query[i])
    ensures Matches(query, h) <==>
              Contains(LowerAscii(h.name), LowerAscii(query)) || Contains(LowerAscii(h.path), LowerAscii(query))
  {
    LikeContains(query, h.name);
    LikeContains(query, h.path);
  }

  /** Every row of `s` is the table's row for its path. */
  predicate FromTable(t: Table, s: seq<Hit>)
  {
    forall i :: 0 <= i < |s| ==> s[i].path in t && s[i] == HitOf(t, s[i].path)
  }

  predicate DistinctPaths(s: seq<Hit>)
  {
    forall i, j :: 0 <= i < j < |s| ==> s[i].path != s[j].path
  }

  /** The filtered rows are table rows that match, and they include every
      scanned row that matches. */
  lemma {:induction false} WhereMeaning(t: Table, query: string, scan: seq<string>)
    requires forall i :: 0 <= i < |scan| ==> scan[i] in t
    ensures FromTable(t, Where(t, query, scan))
    ensures forall i :: 0 <= i < |Where(t, query, scan)| ==> Matches(query, Where(t, query, scan)[i])
    ensures forall i :: 0 <= i < |Where(t, query, scan)| ==> Where(t, query, scan)[i].path in scan
    ensures forall p :: p in scan && Matches(query, HitOf(t, p)) ==> HitOf(t, p) in Where(t, query, scan)
  {
    if scan != [] {
      var init := scan[..|scan| - 1];
      WhereMeaning(t, query, init);
      assert forall p :: p in scan ==> p in init || p == scan[|scan| - 1];
      assert forall p :: p in init ==> p in scan;
    }
  }

  /** The scanned paths whose row satisfies the `WHERE` clause. */
  function ScanMatches(t: Table, query: string, scan: seq<string>): set<string>
    requires forall i :: 0 <= i < |scan| ==> scan[i] in t
  {
    set i | 0 <= i < |scan| && Matches(query, HitOf(t, scan[i])) :: scan[i]
  }

  lemma ScanMatchesStep(t: Table, query: string, scan: seq<string>)
    requires scan != []
    requires forall i :: 0 <= i < |scan| ==> scan[i] in t
    ensures ScanMatches(t, query, scan) ==
              ScanMatches(t, query, scan[..|scan| - 1]) +
              (if Matches(query, HitOf(t, scan[|scan| - 1])) then {scan[|scan| - 1]} else {})
  {
    var init := scan[..|scan| - 1];
    assert forall i :: 0 <= i < |init| ==> init[i] == scan[i];
  }

  /** For a scan without repeats the filtered rows have distinct paths. */
  lemma {:induction false} WhereDistinct(t: Table, query: string, scan: seq<string>)
    requires forall i :: 0 <= i < |scan| ==> scan[i] in t
    requires forall i, j :: 0 <= i < j < |scan| ==> scan[i] != scan[j]
    ensures DistinctPaths(Where(t, query, scan))
  {
    if scan != [] {
      var init := scan[..|scan| - 1];
      WhereDistinct(t, query, init);
      WhereMeaning(t, query, init);
      assert scan[|scan| - 1] !in init;
    }
  }

  /** ... and there is one of them per matching scanned path. */
  lemma {:induction false} WhereCount(t: Table, query: string, scan: seq<string>)
    requires forall i :: 0 <= i < |scan| ==> scan[i] in t
    requires forall i, j :: 0 <= i < j < |scan| ==> scan[i] != scan[j]
    ensures |Where(t, query, scan)| == |ScanMatches(t, query, scan)|
  {
    if scan != [] {
      var init := scan[..|scan| - 1];
      WhereCount(t, query, init);
      ScanMatchesStep(t, query, scan);
      assert scan[|scan| - 1] !in ScanMatches(t, query, init);
    }
  }

  // ----- the ORDER BY clause

  lemma {:induction false} InsertPerm(o: Order, h: Hit, s: seq<Hit>)
    ensures multiset(Insert(o, h, s)) == multiset(s) + multiset{h}
  {
    if s != [] && KeyLe(o, s[0], h) {
      InsertPerm(o, h, s[1..]);
      assert s == [s[0]] + s[1..];
    }
  }

  /** Every row of the result is `h` or a row of `s`. */
  lemma {:induction false} InsertMembers(o: Order, h: Hit, s: seq<Hit>)
    ensures forall x :: x in Insert(o, h, s) ==> x == h || x in s
  {
    if s != [] && KeyLe(o, s[0], h) {
      InsertMembers(o, h, s[1..]);
      assert forall x :: x in s[1..] ==> x in s;
    }
  }

  /** Placing `h` in front of rows it precedes keeps them ordered. */
  lemma InsertFront(o: Order, h: Hit, s: seq<Hit>)
    requires Sorted(o, s) && s != [] && !KeyLe(o, s[0], h)
    ensures Sorted(o, [h] + s)
  {
    KeyLeTotal(o, s[0], h);
    forall j | 0 < j < |s|
      ensures KeyLe(o, h, s[j])
    {
      KeyLeTrans(o, h, s[0], s[j]);
    }
  }

  /** Keeping the first row in front of an ordered insertion into the rest. */
  lemma InsertBehind(o: Order, h: Hit, s: seq<Hit>)
    requires Sorted(o, s) && s != [] && KeyLe(o, s[0], h)
    requires Sorted(o, Insert(o, h, s[1..]))
    ensures Sorted(o, [s[0]] + Insert(o, h, s[1..]))
  {
    var r := Insert(o, h, s[1..]);
    InsertMembers(o, h, s[1..]);
    forall j | 0 <= j < |r|
      ensures KeyLe(o, s[0], r[j])
    {
      assert r[j] in r;
      if r[j] != h {
        var i :| 0 <= i < |s[1..]| && s[1..][i] == r[j];
        assert s[i + 1] == r[j];
      }
    }
  }

  lemma {:induction false} InsertSorted(o: Order, h: Hit, s: seq<Hit>)
    requires Sorted(o, s)
    ensures Sorted(o, Insert(o, h, s))
  {
    if s == [] {
    } else if !KeyLe(o, s[0], h) {
      InsertFront(o, h, s);
    } else {
      InsertSorted(o, h, s[1..]);
      InsertBehind(o, h, s);
    }
  }

  /** The sort rearranges its input ... */
  lemma {:induction false} SortByPerm(o: Order, s: seq<Hit>)
    ensures multiset(SortBy(o, s)) == multiset(s)
  {
    if s != [] {
      var init, last := s[..|s| - 1], s[|s| - 1];
      SortByPerm(o, init);
      InsertPerm(o, last, SortBy(o, init));
      assert SortBy(o, s) == Insert(o, last, SortBy(o, init));
      SplitLast(s);
    }
  }

  /** ... and leaves it ordered. */
  lemma {:induction false} SortBySorted(o: Order, s: seq<Hit>)
    ensures Sorted(o, SortBy(o, s))
  {
    if s != [] {
      SortBySorted(o, s[..|s| - 1]);
      InsertSorted(o, s[|s| - 1], SortBy(o, s[..|s| - 1]));
    }
  }

  lemma SortByMeaning(o: Order, s: seq<Hit>)
    ensures multiset(SortBy(o, s)) == multiset(s)
    ensures Sorted(o, SortBy(o, s))
  {
    SortByPerm(o, s);
    SortBySorted(o, s);
  }

  // ----- distinct table rows

  /** In a sequence of table rows with distinct paths no row occurs twice. */
  lemma {:induction false} DistinctOnce(t: Table, s: seq<Hit>, x: Hit)
    requires FromTable(t, s) && DistinctPaths(s)
    ensures multiset(s)[x] <= 1
  {
    if s != [] {
      var init := s[..|s| - 1];
      DistinctOnce(t, init, x);
      SplitLast(s);
      if x == s[|s| - 1] {
        assert x !in init;
      }
    }
  }

  lemma TwiceCounted(s: seq<Hit>, i: nat, j: nat)
    requires i < j < |s| && s[i] == s[j]
    ensures multiset(s)[s[i]] >= 2
  {
    assert s == s[..j] + s[j..];
    assert s[i] in s[..j];
    assert s[j] in s[j..];
  }

  /** A rearranged selection of table rows with distinct paths inherits both. */
  lemma SubDistinct(t: Table, s: seq<Hit>, r: seq<Hit>)
    requires FromTable(t, s) && DistinctPaths(s)
    requires multiset(r) <= multiset(s)
    ensures FromTable(t, r) && DistinctPaths(r)
  {
    forall i | 0 <= i < |r|
      ensures r[i].path in t && r[i] == HitOf(t, r[i].path)
    {
      assert r[i] in multiset(r);
      assert r[i] in s;
    }
    forall i, j | 0 <= i < j < |r|
      ensures r[i].path != r[j].path
    {
      if r[i].path == r[j].path {
        assert r[i] == r[j];
        TwiceCounted(r, i, j);
        DistinctOnce(t, s, r[i]);
        assert false;
      }
    }
  }

  lemma PrefixSub(s: seq<Hit>, k: nat)
    requires k <= |s|
    ensures multiset(s[..k]) <= multiset(s)
  {
    assert s == s[..k] + s[k..];
  }

  // ----- the query

  /** Every row shown is the table's row for its path, matches the entry,
      and no path is shown twice. */
  lemma SearchFromStore(t: Table, scan: seq<string>, key: string, query: string)
    requires IsScan(t, scan)
    ensures FromTable(t, SearchRows(t, scan, key, query))
    ensures DistinctPaths(SearchRows(t, scan, key, query))
    ensures forall i :: 0 <= i < |SearchRows(t, scan, key, query)| ==> Matches(query, SearchRows(t, scan, key, query)[i])
  {
    var w := Where(t, query, scan);
    var s := SortBy(OrderFor(key), w);
    var r := SearchRows(t, scan, key, query);
    WhereMeaning(t, query, scan);
    WhereDistinct(t, query, scan);
    SortByMeaning(OrderFor(key), w);
    PrefixSub(s, |r|);
    SubDistinct(t, w, r);
    forall i | 0 <= i < |r|
      ensures Matches(query, r[i])
    {
      assert r[i] in multiset(r);
      assert r[i] in w;
    }
  }

  /** `LIMIT 300`: as many rows as match, but at most 300. */
  lemma SearchCount(t: Table, scan: seq<string>, key: string, query: string)
    requires IsScan(t, scan)
    ensures |SearchRows(t, scan, key, query)| == Min(Limit, |MatchingPaths(t, query)|)
  {
    WhereCount(t, query, scan);
    assert ScanMatches(t, query, scan) == MatchingPaths(t, query);
  }

  /** The rows are in the order the resolved key asks for. */
  lemma SearchSorted(t: Table, scan: seq<string>, key: string, query: string)
    requires IsScan(t, scan)
    ensures Sorted(OrderFor(key), SearchRows(t, scan, key, query))
  {
    SortByMeaning(OrderFor(key), Where(t, query, scan));
  }

  /** The rows shown are the first ones in that order: every matching row that
      is left out may follow each row that is shown. */
  lemma SearchTop(t: Table, scan: seq<string>, key: string, query: string, p: string)
    requires IsScan(t, scan)
    requires p in MatchingPaths(t, query)
    ensures || HitOf(t, p) in SearchRows(t, scan, key, query)
            || forall i :: 0 <= i < |SearchRows(t, scan, key, query)| ==>
                 KeyLe(OrderFor(key), SearchRows(t, scan, key, query)[i], HitOf(t, p))
  {
    var o := OrderFor(key);
    var w := Where(t, query, scan);
    var s := SortBy(o, w);
    var r := SearchRows(t, scan, key, query);
    WhereMeaning(t, query, scan);
    SortByMeaning(o, w);
    var h := HitOf(t, p);
    assert h in multiset(s);
    var j :| 0 <= j < |s| && s[j] == h;
    if j >= |r| {
      assert forall i :: 0 <= i < |r| ==> r[i] == s[i];
    }
  }

  /** With an empty entry the first rows of the whole table are shown. */
  lemma EmptyQueryCount(t: Table, scan: seq<string>, key: string)
    requires IsScan(t, scan)
    ensures |SearchRows(t, scan, key, "")| == Min(Limit, |t|)
  {
    SearchCount(t, scan, key, "");
    EmptyQueryMatchesAll(t);
  }

  // ----- the window

  /** The status line: `Displaying N items`, or the error text of a failed
      query. */
  datatype Status = Displaying(count: nat) | Error

  /** The search window's state: the order key, the rows in the tree view and
      the status line. */
  class FootprintsSearchUI {
    var orderKey: string
    var shown: seq<Hit>
    var status: Status

    /** `__init__` sets the initial key and runs a first search with the empty
        entry. `available` is false when the query raises. */
    constructor (t: Table, scan: seq<string>, available: bool)
      requires IsScan(t, scan)
      ensures orderKey == InitialKey
      ensures available ==> shown == SearchRows(t, scan, InitialKey, "") && status == Displaying(|shown|)
      ensures !available ==> shown == [] && status == Error
    {
      orderKey := InitialKey;
      shown := [];
      status := Error;
      new;
      Search(t, scan, "", available);
    }

    /** `search()`: on success the tree is replaced by the fetched rows; on an
        exception only the status line changes. */
    method Search(t: Table, scan: seq<string>, query: string, available: bool)
      requires IsScan(t, scan)
      modifies this
      ensures orderKey == old(orderKey)
      ensures available ==> shown == SearchRows(t, scan, orderKey, query) && status == Displaying(|shown|)
      ensures !available ==> shown == old(shown) && status == Error
    {
      if available {
        shown := SearchRows(t, scan, orderKey, query);
        status := Displaying(|shown|);
      } else {
        status := Error;
      }
    }

    /** `sort_column(col)`: the lower-cased column name becomes the key, then the
        search runs again. */
    method SortColumn(col: string, t: Table, scan: seq<string>, query: string, available: bool)
      requires IsScan(t, scan)
      modifies this
      ensures orderKey == LowerAscii(col)
      ensures available ==> shown == SearchRows(t, scan, orderKey, query) && status == Displaying(|shown|)
      ensures !available ==> shown == old(shown) && status == Error
    {
      orderKey := LowerAscii(col);
      Search(t, scan, query, available);
    }
  }
}
