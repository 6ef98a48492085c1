/** The newest files of a walk that may visit a file more than once: a bounded heap and a dictionary. */
module RecentChanges {
  import opened Wrappers
  import opened Collections
  import Sorting

  datatype Row = Row(path: string, mtime: int, size: int)

  /** A heap entry; Python compares such pairs by time, then by name. */
  datatype Entry = Entry(mtime: int, name: string)

  predicate NameLe(a: string, b: string) {
    a == "" || (b != "" && (a[0] < b[0] || (a[0] == b[0] && NameLe(a[1..], b[1..]))))
  }

  lemma {:induction false} NamesAreOrdered(a: string, b: string, c: string)
    ensures NameLe(a, b) || NameLe(b, a)
    ensures NameLe(a, b) && NameLe(b, c) ==> NameLe(a, c)
  {
    if a != "" && b != "" {
      NamesAreOrdered(a[1..], b[1..], if c == "" then "" else c[1..]);
    }
  }

  /** The order of names: a beginning comes first, otherwise the first characters that differ decide. */
  lemma {:induction false} NamesCompare(a: string, b: string)
    ensures NameLe(a, b) <==>
      a <= b || exists k: nat :: k < |a| && k < |b| && a[..k] == b[..k] && a[k] < b[k]
  {
    if a != "" && b != "" {
      NamesCompare(a[1..], b[1..]);
      if k: nat :| k < |a[1..]| && k < |b[1..]| && a[1..][..k] == b[1..][..k] && a[1..][k] < b[1..][k] {
        if a[0] == b[0] {
          assert a[..k + 1] == [a[0]] + a[1..][..k] && b[..k + 1] == [b[0]] + b[1..][..k];
          assert a[k + 1] < b[k + 1];
        }
      }
      if k: nat :| k < |a| && k < |b| && a[..k] == b[..k] && a[k] < b[k] {
        if k > 0 {
          assert a[0] == a[..k][0] == b[..k][0] == b[0];
          assert a[1..][..k - 1] == a[..k][1..] && b[1..][..k - 1] == b[..k][1..];
          assert a[1..][k - 1] < b[1..][k - 1];
        }
      }
    }
  }

  predicate EntryLe(a: Entry, b: Entry) { a.mtime < b.mtime || (a.mtime == b.mtime && NameLe(a.name, b.name)) }

  lemma EntriesAreOrdered()
    ensures Sorting.TotalPreorder(EntryLe)
  {
    forall a: Entry, b: Entry
      ensures EntryLe(a, b) || EntryLe(b, a)
    {
      NamesAreOrdered(a.name, b.name, "");
    }
    forall a: Entry, b: Entry, c: Entry | EntryLe(a, b) && EntryLe(b, c)
      ensures EntryLe(a, c)
    {
      NamesAreOrdered(a.name, b.name, c.name);
    }
  }

  /** The heap and the dictionary are in bijection: one entry for each candidate, with its time. */
  ghost predicate Agree(candidates: map<string, Row>, oldest: seq<Entry>) {
    && Sorting.Sorted(oldest, EntryLe)
    && (forall e :: e in oldest <==> e.name in candidates && e.mtime == candidates[e.name].mtime)
    && Apart(oldest)
    && (forall n :: n in candidates ==> candidates[n].path == n)
    && |oldest| == |candidates|
  }

  // ---- The heap, as a list with its least entry first ----

  function Push(oldest: seq<Entry>, e: Entry): seq<Entry> { Sorting.Insert(e, oldest, EntryLe) }

  lemma PushKeeps(candidates: map<string, Row>, oldest: seq<Entry>, row: Row)
    requires Agree(candidates, oldest) && row.path !in candidates
    ensures Agree(candidates[row.path := row], Push(oldest, Entry(row.mtime, row.path)))
  {
    var e := Entry(row.mtime, row.path);
    var more := Push(oldest, e);
    EntriesAreOrdered();
    Sorting.InsertIsSorted(e, oldest, EntryLe);
    Sorting.InsertAdds(e, oldest, EntryLe);
    hide Sorting.Insert, EntryLe;
    forall x
      ensures x in more <==> x == e || x in oldest
    {
      assert x in multiset(more) <==> x == e || x in multiset(oldest);
    }
    NamesApart(e, oldest);
  }

  predicate Apart(s: seq<Entry>) { forall i, j :: 0 <= i < j < |s| ==> s[i].name != s[j].name }

  lemma ApartBehind(e: Entry, s: seq<Entry>)
    requires Apart(s) && forall x :: x in s ==> x.name != e.name
    ensures Apart([e] + s)
  {
    assert forall i :: 0 <= i < |s| ==> s[i] in s;
  }

  lemma ApartFirst(s: seq<Entry>)
    requires s != [] && Apart(s)
    ensures Apart(s[1..]) && forall x :: x in s[1..] ==> x.name != s[0].name
  {
  }

  /** A new name stays apart from the others wherever it is put. */
  lemma {:induction false} NamesApart(e: Entry, s: seq<Entry>)
    requires Apart(s) && forall x :: x in s ==> x.name != e.name
    ensures Apart(Sorting.Insert(e, s, EntryLe))
  {
    hide Apart, EntryLe;
    if s == [] || EntryLe(e, s[0]) {
      ApartBehind(e, s);
    } else {
      ApartFirst(s);
      NamesApart(e, s[1..]);
      var rest := Sorting.Insert(e, s[1..], EntryLe);
      forall x | x in rest
        ensures x.name != s[0].name
      {
        Sorting.InsertedElements(e, s[1..], EntryLe, x);
      }
      ApartBehind(s[0], rest);
    }
  }

  /** Dropping the least entry and its candidate. */
  lemma PopKeeps(candidates: map<string, Row>, oldest: seq<Entry>)
    requires Agree(candidates, oldest) && oldest != []
    ensures oldest[0].name in candidates && Agree(candidates - {oldest[0].name}, oldest[1..])
    ensures forall n :: n in candidates ==> candidates[oldest[0].name].mtime <= candidates[n].mtime
    ensures forall n :: n in candidates && candidates[n].mtime == oldest[0].mtime ==> NameLe(oldest[0].name, n)
  {
    var e := oldest[0];
    assert e in oldest;
    forall n | n in candidates
      ensures e.mtime <= candidates[n].mtime && (candidates[n].mtime == e.mtime ==> NameLe(e.name, n))
    {
      assert Entry(candidates[n].mtime, n) in oldest;
      var i :| 0 <= i < |oldest| && oldest[i] == Entry(candidates[n].mtime, n);
      assert i > 0 ==> EntryLe(oldest[0], oldest[i]);
      NamesAreOrdered(n, n, n);
    }
    forall x
      ensures x in oldest[1..] <==> x in oldest && x.name != e.name
    {
    }
    assert |candidates - {e.name}| == |candidates| - 1;
  }

  /** heapify over the whole dictionary. */
  method Heapify(candidates: map<string, Row>) returns (oldest: seq<Entry>)
    requires forall n :: n in candidates ==> candidates[n].path == n
    ensures Agree(candidates, oldest)
  {
    oldest := [];
    var names := candidates.Keys;
    NothingTaken(candidates);
    hide Agree, Push;
    while names != {}
      invariant names <= candidates.Keys && Agree(candidates - names, oldest)
      decreases |names|
    {
      var n :| n in names;
      TakeOne(candidates, names, n);
      PushKeeps(candidates - names, oldest, candidates[n]);
      oldest := Push(oldest, Entry(candidates[n].mtime, n));
      names := names - {n};
    }
    NothingLeft(candidates);
  }

  lemma NothingTaken(candidates: map<string, Row>)
    ensures Agree(candidates - candidates.Keys, [])
  {
    assert candidates - candidates.Keys == map[];
  }

  lemma NothingLeft(candidates: map<string, Row>)
    ensures candidates - {} == candidates
  {
  }

  lemma TakeOne(candidates: map<string, Row>, names: set<string>, n: string)
    requires n in names && n in candidates
    ensures (candidates - names)[n := candidates[n]] == candidates - (names - {n})
  {
  }

  // ---- The walk ----

  /** What the walk has seen: a row for each visit, or nothing where the file could not be examined. */
  type Visits = seq<Option<Row>>

  function Paths(visits: Visits): set<string> { set v | v in visits && v.Some? :: v.value.path }

  /** The last row of a path. */
  function LastOf(visits: Visits, path: string): Option<Row> {
    if visits == [] then None
    else
      var last := visits[|visits| - 1];
      if last.Some? && last.value.path == path then last else LastOf(visits[..|visits| - 1], path)
  }

  /** No file changes its time during the walk. */
  predicate Fixed(visits: Visits) {
    forall a, b :: a in visits && b in visits && a.Some? && b.Some? && a.value.path == b.value.path ==>
      a.value.mtime == b.value.mtime
  }

  /** As many as fit, and none left out that is newer than one kept. */
  ghost predicate Newest(visits: Visits, candidates: map<string, Row>, limit: nat) {
    && |candidates| == (if |Paths(visits)| < limit then |Paths(visits)| else limit)
    && forall v, n :: v in visits && v.Some? && v.value.path !in candidates && n in candidates ==>
      v.value.mtime <= candidates[n].mtime
  }

  /** The candidates are the last rows of their paths. */
  ghost predicate LastRows(visits: Visits, candidates: map<string, Row>, limit: nat) {
    |candidates| <= limit && candidates.Keys <= Paths(visits) && forall n :: n in candidates ==>
      LastOf(visits, n) == Some(candidates[n])
  }

  ghost predicate Kept(visits: Visits, candidates: map<string, Row>, limit: nat) {
    LastRows(visits, candidates, limit) && (Fixed(visits) ==> Newest(visits, candidates, limit))
  }

  lemma OneMoreVisit(visits: Visits, row: Row)
    ensures var more := visits + [Some(row)];
      && Paths(more) == Paths(visits) + {row.path}
      && (forall n :: LastOf(more, n) == if n == row.path then Some(row) else LastOf(visits, n))
      && (Fixed(more) ==> Fixed(visits) && forall v :: v in visits && v.Some? && v.value.path == row.path ==>
        v.value.mtime == row.mtime)
      && (forall v :: v in more <==> v in visits || v == Some(row))
  {
    var more := visits + [Some(row)];
    assert more[..|visits|] == visits;
    assert forall v :: v in more <==> v in visits || v == Some(row);
    if Fixed(more) {
      assert Some(row) in more;
    }
  }

  lemma {:induction false} LastIsVisited(visits: Visits, path: string)
    ensures var last := LastOf(visits, path);
      last.Some? ==> last in visits && last.value.path == path
  {
    if visits != [] {
      LastIsVisited(visits[..|visits| - 1], path);
    }
  }

  lemma AllOrFull(visits: Visits, candidates: map<string, Row>, limit: nat)
    requires LastRows(visits, candidates, limit) && Newest(visits, candidates, limit) && |candidates| < limit
    ensures candidates.Keys == Paths(visits)
  {
    hide LastOf;
    SameSize(candidates.Keys, Paths(visits));
  }

  /** A row put in place of `removed`, or into free room, keeps the rows the last ones. */
  lemma LastRowsPut(visits: Visits, candidates: map<string, Row>, limit: nat, row: Row)
    requires LastRows(visits, candidates, limit) && (row.path in candidates || |candidates| < limit)
    ensures LastRows(visits + [Some(row)], candidates[row.path := row], limit)
  {
    hide LastOf, Paths;
    OneMoreVisit(visits, row);
  }

  lemma LastRowsSkip(visits: Visits, candidates: map<string, Row>, limit: nat, row: Row)
    requires LastRows(visits, candidates, limit) && row.path !in candidates
    ensures LastRows(visits + [Some(row)], candidates, limit)
  {
    hide LastOf, Paths;
    OneMoreVisit(visits, row);
  }

  /** A path that is still a candidate is visited again. */
  lemma SeenAgain(visits: Visits, candidates: map<string, Row>, limit: nat, row: Row)
    requires Kept(visits, candidates, limit) && row.path in candidates
    ensures Kept(visits + [Some(row)], candidates[row.path := row], limit)
  {
    hide LastRows, Newest, Fixed, Paths, LastOf;
    LastRowsPut(visits, candidates, limit, row);
    OneMoreVisit(visits, row);
    if Fixed(visits + [Some(row)]) {
      SameTime(visits, candidates, limit, row);
      NewestAgain(visits, candidates, limit, row);
    }
  }

  lemma SameTime(visits: Visits, candidates: map<string, Row>, limit: nat, row: Row)
    requires LastRows(visits, candidates, limit) && Fixed(visits + [Some(row)]) && row.path in candidates
    ensures candidates[row.path].mtime == row.mtime && row.path in Paths(visits)
  {
    OneMoreVisit(visits, row);
    LastIsVisited(visits, row.path);
  }

  lemma NewestAgain(visits: Visits, candidates: map<string, Row>, limit: nat, row: Row)
    requires Newest(visits, candidates, limit) && row.path in candidates
    requires candidates[row.path].mtime == row.mtime && row.path in Paths(visits)
    ensures Newest(visits + [Some(row)], candidates[row.path := row], limit)
  {
    hide LastOf, Fixed, Paths;
    OneMoreVisit(visits, row);
    assert Paths(visits) + {row.path} == Paths(visits);
    assert candidates[row.path := row].Keys == candidates.Keys;
  }

  /** A new path while there is room. */
  lemma NewAndFits(visits: Visits, candidates: map<string, Row>, limit: nat, row: Row)
    requires Kept(visits, candidates, limit) && row.path !in candidates && |candidates| < limit
    ensures Kept(visits + [Some(row)], candidates[row.path := row], limit)
  {
    hide LastOf, Fixed, LastRows;
    LastRowsPut(visits, candidates, limit, row);
    OneMoreVisit(visits, row);
    if Fixed(visits + [Some(row)]) {
      AllOrFull(visits, candidates, limit);
      AllAreIn(visits + [Some(row)], candidates[row.path := row], limit);
    }
  }

  lemma AllAreIn(visits: Visits, candidates: map<string, Row>, limit: nat)
    requires candidates.Keys == Paths(visits) && |candidates| <= limit
    ensures Newest(visits, candidates, limit)
  {
    assert forall v :: v in visits && v.Some? ==> v.value.path in Paths(visits);
  }

  /** A path newer than the oldest candidate takes its place. */
  lemma NewerThanOldest(visits: Visits, candidates: map<string, Row>, limit: nat, row: Row, removed: string)
    requires Kept(visits, candidates, limit) && row.path !in candidates && |candidates| == limit
    requires removed in candidates && row.mtime > candidates[removed].mtime
    requires forall n :: n in candidates ==> candidates[removed].mtime <= candidates[n].mtime
    ensures Kept(visits + [Some(row)], (candidates - {removed})[row.path := row], limit)
  {
    hide LastOf, Paths, Fixed, Newest;
    var less := candidates - {removed};
    assert |less| == limit - 1;
    assert LastRows(visits, less, limit);
    LastRowsPut(visits, less, limit, row);
    OneMoreVisit(visits, row);
    LastIsVisited(visits, removed);
    if Fixed(visits + [Some(row)]) {
      NewestAfter(visits, candidates, limit, row, removed);
    }
  }

  lemma NewestAfter(visits: Visits, candidates: map<string, Row>, limit: nat, row: Row, removed: string)
    requires Newest(visits, candidates, limit) && Fixed(visits + [Some(row)]) && row.path !in candidates
    requires |candidates| == limit
    requires removed in candidates && row.mtime > candidates[removed].mtime && Some(candidates[removed]) in visits
    requires candidates[removed].path == removed
    requires forall n :: n in candidates ==> candidates[removed].mtime <= candidates[n].mtime
    ensures Newest(visits + [Some(row)], (candidates - {removed})[row.path := row], limit)
  {
    hide LastOf, Paths;
    var after := (candidates - {removed})[row.path := row];
    OneMoreVisit(visits, row);
    AsManyAsFit(visits, candidates, limit, row, removed);
    forall v, n | v in visits + [Some(row)] && v.Some? && v.value.path !in after && n in after
      ensures v.value.mtime <= after[n].mtime
    {
      if v.value.path == removed {
        OneTimeEach(visits + [Some(row)], v.value, candidates[removed]);
      } else {
        assert v.value.mtime <= candidates[removed].mtime;
      }
    }
  }

  lemma OneTimeEach(visits: Visits, a: Row, b: Row)
    requires Fixed(visits) && Some(a) in visits && Some(b) in visits && a.path == b.path
    ensures a.mtime == b.mtime
  {
  }

  /** The new candidate takes the place of the removed one. */
  lemma AsManyAsFit(visits: Visits, candidates: map<string, Row>, limit: nat, row: Row, removed: string)
    requires |candidates| == limit == (if |Paths(visits)| < limit then |Paths(visits)| else limit)
    requires removed in candidates && row.path !in candidates
    ensures var more := Paths(visits + [Some(row)]);
      |(candidates - {removed})[row.path := row]| == limit == (if |more| < limit then |more| else limit)
  {
    hide LastOf, Paths, Fixed;
    OneMoreVisit(visits, row);
    var less := candidates - {removed};
    assert less.Keys == candidates.Keys - {removed};
    NoFewer(Paths(visits), row.path);
  }

  lemma NoFewer(paths: set<string>, path: string)
    ensures |paths| <= |paths + {path}|
  {
    if path in paths {
      assert paths + {path} == paths;
    }
  }

  /** A path no newer than the oldest candidate is left out. */
  lemma NotNewer(visits: Visits, candidates: map<string, Row>, limit: nat, row: Row, oldest: string)
    requires Kept(visits, candidates, limit) && row.path !in candidates && |candidates| == limit
    requires oldest in candidates && row.mtime <= candidates[oldest].mtime
    requires forall n :: n in candidates ==> candidates[oldest].mtime <= candidates[n].mtime
    ensures Kept(visits + [Some(row)], candidates, limit)
  {
    hide LastOf, Fixed, LastRows, Paths;
    LastRowsSkip(visits, candidates, limit, row);
    OneMoreVisit(visits, row);
    SubsetIsSmaller(Paths(visits), Paths(visits) + {row.path});
  }

  lemma AgreeFacts(candidates: map<string, Row>, oldest: seq<Entry>)
    requires Agree(candidates, oldest)
    ensures |oldest| == |candidates| && forall n :: n in candidates ==> candidates[n].path == n
    ensures oldest != [] ==> oldest[0].name in candidates && oldest[0].mtime == candidates[oldest[0].name].mtime
  {
    assert oldest != [] ==> oldest[0] in oldest;
  }

  lemma KeptFacts(visits: Visits, candidates: map<string, Row>, limit: nat)
    requires Kept(visits, candidates, limit)
    ensures |candidates| <= limit
  {
  }

  /** The body of the loop for a file that could be examined. */
  method Visit(candidates: map<string, Row>, oldest: seq<Entry>, limit: nat, row: Row, ghost visits: Visits)
    returns (candidates': map<string, Row>, oldest': seq<Entry>)
    requires limit > 0 && Agree(candidates, oldest) && Kept(visits, candidates, limit)
    ensures Agree(candidates', oldest') && Kept(visits + [Some(row)], candidates', limit)
  {
    hide Agree, Kept, Push;
    AgreeFacts(candidates, oldest);
    KeptFacts(visits, candidates, limit);
    if row.path in candidates {
      candidates' := candidates[row.path := row];
      SeenAgain(visits, candidates, limit, row);
      oldest' := Heapify(candidates');
      return;
    }
    if |candidates| < limit {
      PushKeeps(candidates, oldest, row);
      NewAndFits(visits, candidates, limit, row);
      return candidates[row.path := row], Push(oldest, Entry(row.mtime, row.path));
    }
    if oldest != [] && row.mtime > oldest[0].mtime {
      var removed := oldest[0].name;
      PopKeeps(candidates, oldest);
      candidates' := candidates - {removed};
      PushKeeps(candidates', oldest[1..], row);
      oldest' := Push(oldest[1..], Entry(row.mtime, row.path));
      NewerThanOldest(visits, candidates, limit, row, removed);
      candidates' := candidates'[row.path := row];
      return;
    }
    PopKeeps(candidates, oldest);
    NotNewer(visits, candidates, limit, row, oldest[0].name);
    return candidates, oldest;
  }

  lemma NothingSeen(limit: nat)
    ensures Kept([], map[], limit) && Agree(map[], [])
  {
  }

  lemma NothingMore(visits: Visits, candidates: map<string, Row>, limit: nat)
    requires Kept(visits, candidates, limit)
    ensures Kept(visits + [None], candidates, limit)
  {
    var more := visits + [None];
    assert more[..|visits|] == visits;
    assert forall v :: v in more <==> v in visits || v == None;
    assert Paths(more) == Paths(visits);
    assert Fixed(more) == Fixed(visits);
    forall n
      ensures LastOf(more, n) == LastOf(visits, n)
    {
    }
  }

  predicate NewestFirst(a: Row, b: Row) { a.mtime >= b.mtime }

  /** The rows of the dictionary, newest first. */
  method SortedRows(candidates: map<string, Row>) returns (files: seq<Row>)
    requires forall n :: n in candidates ==> candidates[n].path == n
    ensures |files| == |candidates| && forall i, j :: 0 <= i < j < |files| ==> files[i].mtime >= files[j].mtime
    ensures forall r :: r in files <==> r.path in candidates && candidates[r.path] == r
    ensures forall i, j :: 0 <= i < j < |files| ==> files[i].path != files[j].path
  {
    var rows: seq<Row>, names := [], candidates.Keys;
    while names != {}
      invariant names <= candidates.Keys && |rows| + |names| == |candidates|
      invariant forall r :: r in rows <==> r.path in candidates && r.path !in names && candidates[r.path] == r
      invariant forall r: Row :: multiset(rows)[r] <= 1
      decreases |names|
    {
      var n :| n in names;
      assert candidates[n] !in rows;
      rows, names := rows + [candidates[n]], names - {n};
    }
    files := Sorting.Sort(rows, NewestFirst);
    RowsSorted(rows);
  }

  lemma RowsSorted(rows: seq<Row>)
    requires forall r: Row :: multiset(rows)[r] <= 1
    requires forall a, b :: a in rows && b in rows && a.path == b.path ==> a == b
    ensures var files := Sorting.Sort(rows, NewestFirst);
      && (forall i, j :: 0 <= i < j < |files| ==> files[i].mtime >= files[j].mtime)
      && (forall r :: r in files <==> r in rows)
      && forall i, j :: 0 <= i < j < |files| ==> files[i].path != files[j].path
  {
    assert Sorting.TotalPreorder(NewestFirst);
    Sorting.SortIsSorted(rows, NewestFirst);
    Sorting.SortKeepsDistinct(rows, NewestFirst);
    Sorting.SortKeepsElements(rows, NewestFirst);
    var files := Sorting.Sort(rows, NewestFirst);
    assert forall i, j :: 0 <= i < j < |files| ==> NewestFirst(files[i], files[j]);
    hide Sorting.Sort, Sorting.Sorted;
    assert forall i :: 0 <= i < |files| ==> files[i] in files;
  }

  /**
   * recent_changes: whatever the order and the repeats of the walk, the result holds distinct
   * paths with their last rows, newest first; when no time changes, it is as many as fit, and no
   * omitted file is newer than a returned one.
   */
  method RecentChanges(visits: Visits, requested: int, maxEntries: nat) returns (files: seq<Row>)
    ensures var limit := if requested <= 0 then 0 else if requested < maxEntries then requested else maxEntries;
      && |files| <= limit && (forall i, j :: 0 <= i < j < |files| ==> files[i].mtime >= files[j].mtime)
      && (forall i, j :: 0 <= i < j < |files| ==> files[i].path != files[j].path)
      && (forall r :: r in files ==> LastOf(visits, r.path) == Some(r))
      && (Fixed(visits) ==> |files| == if |Paths(visits)| < limit then |Paths(visits)| else limit)
      && (Fixed(visits) ==>
        forall v, r :: v in visits && v.Some? && r in files && (forall f :: f in files ==> f.path != v.value.path) ==>
          v.value.mtime <= r.mtime)
  {
    hide Kept, LastOf, Fixed, Paths, LastRows, Newest;
    var limit := if requested <= 0 then 0 else if requested < maxEntries then requested else maxEntries;
    if limit == 0 {
      return [];
    }
    var candidates := Walk(visits, limit);
    files := SortedRows(candidates);
    Answer(visits, candidates, limit, files);
  }

  /** The loop over all visits. */
  method Walk(visits: Visits, limit: nat) returns (candidates: map<string, Row>)
    requires limit > 0
    ensures Kept(visits, candidates, limit) && forall n :: n in candidates ==> candidates[n].path == n
  {
    hide Agree, Kept, LastOf, Fixed, Paths, LastRows, Newest;
    var oldest: seq<Entry>;
    candidates, oldest := map[], [];
    NothingSeen(limit);
    var index := 0;
    while index < |visits|
      invariant 0 <= index <= |visits|
      invariant Agree(candidates, oldest) && Kept(visits[..index], candidates, limit)
    {
      OneVisitOn(visits, index);
      if visits[index].None? {
        NothingMore(visits[..index], candidates, limit);
      } else {
        candidates, oldest := Visit(candidates, oldest, limit, visits[index].value, visits[..index]);
      }
      index := index + 1;
    }
    OneVisitOn(visits, |visits|);
    AgreeFacts(candidates, oldest);
  }

  lemma OneVisitOn(visits: Visits, i: nat)
    requires i <= |visits|
    ensures i < |visits| ==> visits[..i + 1] == visits[..i] + [visits[i]]
    ensures visits[..|visits|] == visits
  {
  }

  lemma Answer(visits: Visits, candidates: map<string, Row>, limit: nat, files: seq<Row>)
    requires Kept(visits, candidates, limit) && |files| == |candidates|
    requires forall n :: n in candidates ==> candidates[n].path == n
    requires forall r :: r in files <==> r.path in candidates && candidates[r.path] == r
    ensures |files| <= limit && forall r :: r in files ==> LastOf(visits, r.path) == Some(r)
    ensures Fixed(visits) ==> |files| == if |Paths(visits)| < limit then |Paths(visits)| else limit
    ensures Fixed(visits) ==>
      forall v, r :: v in visits && v.Some? && r in files && (forall f :: f in files ==> f.path != v.value.path) ==>
        v.value.mtime <= r.mtime
  {
    hide LastOf;
    forall v | v in visits && v.Some? && v.value.path in candidates
      ensures candidates[v.value.path] in files && candidates[v.value.path].path == v.value.path
    {
    }
  }
}
