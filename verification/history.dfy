/** The history file: the records of the cases seen in the last fourteen days,
    which the search results are compared against. A run appends the cases it
    has not seen before (`add_to_history`), then rewrites the file sorted newest
    first by filing date with the records older than fourteen days removed
    (`clean_history`). The file is a sequence of records, one per row. */
module HistoryFile {
  import opened Outcomes
  import opened Calendar
  import opened Seqs
  import opened Cases
  import opened NewCaseDetection

  // ---------------------------------------------------------------------------
  // add_to_history

  /** `add_to_history`: opening the file for appending keeps its rows, and
      every searched case not in `history` (the rows read at the start of the
      run) is written after them, in search order. `history` is not updated
      while writing, so a case the search returned twice is written twice. */
  method AddToHistory(file: seq<Case>, cases: seq<Case>, history: seq<Case>) returns (file': seq<Case>)
    ensures |file| <= |file'|
    ensures file'[..|file|] == file
    ensures file'[|file|..] == Unseen(cases, history)
  {
    file' := file;
    for i := 0 to |cases|
      invariant file' == file + Unseen(cases[..i], history)
    {
      var c := cases[i];
      assert cases[..i + 1] == cases[..i] + [c];
      FilterSnoc(NotIn(history), cases[..i], c);
      if c !in history {
        file' := file' + [c];
      }
    }
    assert cases[..|cases|] == cases;
  }

  /** The rows appended are the ones `find_new_cases` counted: as many as its
      total, each unseen case as often as the search returned it, and none
      that was in the history. */
  lemma AppendedAreTheNewCases(cases: seq<Case>, history: seq<Case>, c: Case)
    ensures multiset(Unseen(cases, history))[c] == if c in history then 0 else multiset(cases)[c]
  {
    FilterMultiset(NotIn(history), cases, c);
  }

  /** After appending to the history the run read, every searched case is in
      the file, so a second comparison of the same search against the new file
      finds nothing new. */
  lemma NothingNewAfterMerge(cases: seq<Case>, history: seq<Case>)
    ensures forall c :: c in cases ==> c in history + Unseen(cases, history)
    ensures Unseen(cases, history + Unseen(cases, history)) == []
  {
    var merged := history + Unseen(cases, history);
    FilterMembers(NotIn(history), cases);
    assert forall c :: c in cases ==> c in merged;
    FilterNone(NotIn(merged), cases);
  }

  // ---------------------------------------------------------------------------
  // Ordering by the filing-date column

  /** Python's `<=` on `str`: code point by code point, a proper prefix first. */
  predicate LexLeq(a: string, b: string)
    decreases |a|
  {
    || a == []
    || (&& b != []
        && (|| a[0] < b[0]
            || (a[0] == b[0] && LexLeq(a[1..], b[1..]))))
  }

  lemma {:induction false} LexLeqRefl(a: string)
    ensures LexLeq(a, a)
    decreases |a|
  {
    if a != [] {
      LexLeqRefl(a[1..]);
    }
  }

  lemma {:induction false} LexLeqTotal(a: string, b: string)
    ensures LexLeq(a, b) || LexLeq(b, a)
    decreases |a|
  {
    if a != [] && b != [] && a[0] == b[0] {
      LexLeqTotal(a[1..], b[1..]);
    }
  }

  lemma {:induction false} LexLeqTrans(a: string, b: string, c: string)
    requires LexLeq(a, b) && LexLeq(b, c)
    ensures LexLeq(a, c)
    decreases |a|
  {
    if a != [] && a[0] == b[0] && b[0] == c[0] {
      LexLeqTrans(a[1..], b[1..], c[1..]);
    }
  }

  lemma {:induction false} LexLeqAntisym(a: string, b: string)
    requires LexLeq(a, b) && LexLeq(b, a)
    ensures a == b
    decreases |a|
  {
    if a != [] {
      LexLeqAntisym(a[1..], b[1..]);
      assert a == [a[0]] + a[1..] && b == [b[0]] + b[1..];
    }
  }

  /** Newest first by the date column: no record has a greater date string
      than one before it. */
  predicate SortedDesc(s: seq<Case>)
  {
    forall i, j :: 0 <= i < j < |s| ==> LexLeq(s[j].dateFiled, s[i].dateFiled)
  }

  /** The records of `s` whose date column is `k`. */
  function FiledOn(k: string): Case -> bool
  {
    (c: Case) => c.dateFiled == k
  }

  /** Put `x` into a newest-first sequence in front of the first record whose
      date is not greater than its own, so that it goes before every record
      with the same date. */
  function Insert(x: Case, t: seq<Case>): (r: seq<Case>)
    ensures multiset(r) == multiset(t) + multiset{x}
    decreases |t|
  {
    if t == [] then [x]
    else if LexLeq(t[0].dateFiled, x.dateFiled) then [x] + t
    else
      assert t == [t[0]] + t[1..];
      [t[0]] + Insert(x, t[1..])
  }

  lemma {:induction false} InsertSorted(x: Case, t: seq<Case>)
    requires SortedDesc(t)
    ensures SortedDesc(Insert(x, t))
    decreases |t|
  {
    if t == [] {
    } else if LexLeq(t[0].dateFiled, x.dateFiled) {
      var r := [x] + t;
      forall i, j | 0 <= i < j < |r|
        ensures LexLeq(r[j].dateFiled, r[i].dateFiled)
      {
        if i == 0 && j > 1 {
          LexLeqTrans(t[j - 1].dateFiled, t[0].dateFiled, x.dateFiled);
        }
      }
    } else {
      LexLeqTotal(t[0].dateFiled, x.dateFiled);
      InsertSorted(x, t[1..]);
      var rest := Insert(x, t[1..]);
      var r := [t[0]] + rest;
      forall i, j | 0 <= i < j < |r|
        ensures LexLeq(r[j].dateFiled, r[i].dateFiled)
      {
        if i == 0 {
          var y := rest[j - 1];
          assert y in multiset(rest);
          assert y == x || y in t[1..];
        }
      }
    }
  }

  /** Inserting `x` adds it in front of the records with its date and leaves
      the order among every date's records as it was. */
  lemma {:induction false} InsertStable(x: Case, t: seq<Case>, k: string)
    ensures Filter(FiledOn(k), Insert(x, t)) == (if x.dateFiled == k then [x] else []) + Filter(FiledOn(k), t)
    decreases |t|
  {
    if t == [] {
      assert [x][1..] == [];
    } else if LexLeq(t[0].dateFiled, x.dateFiled) {
      assert ([x] + t)[1..] == t;
    } else {
      InsertStable(x, t[1..], k);
      LexLeqRefl(x.dateFiled);
      assert ([t[0]] + Insert(x, t[1..]))[1..] == Insert(x, t[1..]);
    }
  }

  /** `sorted(history, key=lambda case: case[2], reverse=True)`, as an
      insertion sort: the sorted rest, with the first record inserted. It
      rearranges the file without losing or adding a record. */
  function SortDesc(s: seq<Case>): (r: seq<Case>)
    ensures multiset(r) == multiset(s)
    decreases |s|
  {
    if s == [] then []
    else
      assert s == [s[0]] + s[1..];
      Insert(s[0], SortDesc(s[1..]))
  }

  /** The sorted history is newest first. */
  lemma {:induction false} SortDescSorted(s: seq<Case>)
    ensures SortedDesc(SortDesc(s))
    decreases |s|
  {
    if s != [] {
      SortDescSorted(s[1..]);
      InsertSorted(s[0], SortDesc(s[1..]));
    }
  }

  /** The sort is stable: the records of any one date keep their file order. */
  lemma {:induction false} SortStable(s: seq<Case>, k: string)
    ensures Filter(FiledOn(k), SortDesc(s)) == Filter(FiledOn(k), s)
    decreases |s|
  {
    if s != [] {
      SortStable(s[1..], k);
      InsertStable(s[0], SortDesc(s[1..]), k);
    }
  }

  /** The first record of a newest-first sequence has the greatest date. */
  lemma HeadIsNewest(s: seq<Case>, x: Case)
    requires SortedDesc(s) && x in s
    ensures LexLeq(x.dateFiled, s[0].dateFiled)
  {
    var i :| 0 <= i < |s| && s[i] == x;
    if i == 0 {
      LexLeqRefl(x.dateFiled);
    }
  }

  /** Two newest-first sequences with the same records per date start with
      the same date. */
  lemma SameNewestDate(a: seq<Case>, b: seq<Case>)
    requires SortedDesc(a) && SortedDesc(b) && a != []
    requires forall k :: Filter(FiledOn(k), a) == Filter(FiledOn(k), b)
    ensures b != [] && a[0].dateFiled == b[0].dateFiled
  {
    FilterMembers(FiledOn(a[0].dateFiled), a);
    FilterMembers(FiledOn(a[0].dateFiled), b);
    FilterMembers(FiledOn(b[0].dateFiled), a);
    FilterMembers(FiledOn(b[0].dateFiled), b);
    assert a[0] in Filter(FiledOn(a[0].dateFiled), a);
    assert a[0] in b;
    assert b[0] in Filter(FiledOn(b[0].dateFiled), b);
    assert b[0] in a;
    HeadIsNewest(b, a[0]);
    HeadIsNewest(a, b[0]);
    LexLeqAntisym(a[0].dateFiled, b[0].dateFiled);
  }

  /** A non-empty sequence has records on the date of its first one. */
  lemma HeadDateFiltered(s: seq<Case>)
    ensures s != [] ==> Filter(FiledOn(s[0].dateFiled), s) != []
  {
  }

  /** Taking the first record off: the records of its date lose their first
      element, those of other dates stay as they are. */
  lemma FiledOnTail(s: seq<Case>, k: string)
    requires s != []
    ensures Filter(FiledOn(k), s[1..]) ==
      if s[0].dateFiled == k then Filter(FiledOn(k), s)[1..] else Filter(FiledOn(k), s)
  {
  }

  /** A newest-first order that keeps each date's records in file order is
      unique: `SortDesc` is the only such arrangement of a file, which is what
      a stable descending `sorted` returns. */
  lemma {:induction false} StableSortUnique(a: seq<Case>, b: seq<Case>)
    requires SortedDesc(a) && SortedDesc(b)
    requires forall k :: Filter(FiledOn(k), a) == Filter(FiledOn(k), b)
    ensures a == b
    decreases |a|
  {
    if a == [] {
      HeadDateFiltered(b);
    } else {
      SameNewestDate(a, b);
      var k0 := a[0].dateFiled;
      assert Filter(FiledOn(k0), a)[0] == a[0];
      assert Filter(FiledOn(k0), b)[0] == b[0];
      forall k
        ensures Filter(FiledOn(k), a[1..]) == Filter(FiledOn(k), b[1..])
      {
        FiledOnTail(a, k);
        FiledOnTail(b, k);
      }
      StableSortUnique(a[1..], b[1..]);
      assert a == [a[0]] + a[1..] && b == [b[0]] + b[1..];
    }
  }

  /** So the stable sort is characterised by its two properties: any
      newest-first arrangement of a file that keeps each date's records in
      file order is `SortDesc` of it. */
  lemma SortDescCharacterised(s: seq<Case>, t: seq<Case>)
    requires SortedDesc(t)
    requires forall k :: Filter(FiledOn(k), t) == Filter(FiledOn(k), s)
    ensures t == SortDesc(s)
  {
    forall k
      ensures Filter(FiledOn(k), t) == Filter(FiledOn(k), SortDesc(s))
    {
      SortStable(s, k);
    }
    SortDescSorted(s);
    StableSortUnique(t, SortDesc(s));
  }

  // ---------------------------------------------------------------------------
  // The fourteen-day retention window

  const MicrosPerDay := 86_400_000_000
  const RetentionDays := 14

  /** The run's clock reading in the court's time zone: a day ordinal and the
      microseconds since that day's midnight. */
  datatype Instant = Instant(day: int, micros: int)

  predicate ValidInstant(now: Instant)
  {
    0 <= now.micros < MicrosPerDay
  }

  /** `not (date < two_weeks)`: midnight of the filing day is not earlier than
      the same time of day fourteen days before now. */
  predicate Retained(filedDay: int, now: Instant)
  {
    !(filedDay * MicrosPerDay < (now.day - RetentionDays) * MicrosPerDay + now.micros)
  }

  /** In whole days: a record is kept when it was filed fewer than fourteen
      days ago, or exactly fourteen days ago when the run starts at midnight
      on the dot. */
  lemma RetainedInDays(filedDay: int, now: Instant)
    requires ValidInstant(now)
    ensures Retained(filedDay, now) <==>
      filedDay > now.day - RetentionDays || (filedDay == now.day - RetentionDays && now.micros == 0)
  {
    if filedDay > now.day - RetentionDays {
      assert filedDay * MicrosPerDay >= (now.day - RetentionDays + 1) * MicrosPerDay;
    } else if filedDay < now.day - RetentionDays {
      assert filedDay * MicrosPerDay <= (now.day - RetentionDays - 1) * MicrosPerDay;
    }
  }

  /** A date string `strptime` reads whose day is within the window. */
  predicate FreshDate(k: string, now: Instant)
  {
    ParseDay(k).Some? && Retained(ParseDay(k).value, now)
  }

  function Fresh(now: Instant): Case -> bool
  {
    (c: Case) => FreshDate(c.dateFiled, now)
  }

  predicate DatesParse(file: seq<Case>)
  {
    forall i :: 0 <= i < |file| ==> ParseDay(file[i].dateFiled).Some?
  }

  /** Sorted newest first, the records within the window, nothing else. */
  function Pruned(file: seq<Case>, now: Instant): seq<Case>
  {
    Filter(Fresh(now), SortDesc(file))
  }

  /** The loop of `clean_history`: walk a copy of the sorted list and
      `remove` every record older than the window from the list. A date
      `strptime` rejects ends the run (`None`). */
  method RemoveStale(sorted: seq<Case>, now: Instant) returns (r: Option<seq<Case>>)
    ensures r.Some? <==> DatesParse(sorted)
    ensures r.Some? ==> r.value == Filter(Fresh(now), sorted)
  {
    var keep := Fresh(now);
    var kept := sorted;
    for i := 0 to |sorted|
      invariant kept == Filter(keep, sorted[..i]) + sorted[i..]
      invariant DatesParse(sorted[..i])
    {
      var c := sorted[i];
      SplitAt(sorted, i);
      FilterStep(keep, sorted[..i], c, sorted[i + 1..]);
      var filed := ParseDay(c.dateFiled);
      if filed.None? {
        return None;
      }
      if !Retained(filed.value, now) {
        kept := RemoveFirst(kept, c);
      }
      assert sorted[..i + 1][i] == c;
    }
    assert sorted[..|sorted|] == sorted;
    return Some(kept);
  }

  /** Whether every date parses does not depend on the order of the records. */
  lemma DatesParseReordered(a: seq<Case>, b: seq<Case>)
    requires multiset(a) == multiset(b)
    ensures DatesParse(a) <==> DatesParse(b)
  {
    forall j | 0 <= j < |a|
      ensures a[j] in multiset(b)
    {
      assert a[j] in multiset(a);
    }
    forall j | 0 <= j < |b|
      ensures b[j] in multiset(a)
    {
      assert b[j] in multiset(b);
    }
    if DatesParse(a) {
      forall j | 0 <= j < |b|
        ensures ParseDay(b[j].dateFiled).Some?
      {
        assert b[j] in a;
      }
    }
    if DatesParse(b) {
      forall j | 0 <= j < |a|
        ensures ParseDay(a[j].dateFiled).Some?
      {
        assert a[j] in b;
      }
    }
  }

  /** `clean_history`: sort the file newest first, then remove the records
      older than the window. A date `strptime` rejects ends the run and the
      file is not rewritten (`None`). */
  method CleanHistory(file: seq<Case>, now: Instant) returns (r: Option<seq<Case>>)
    ensures r.Some? <==> DatesParse(file)
    ensures r.Some? ==> r.value == Pruned(file, now)
  {
    var sorted := SortDesc(file);
    DatesParseReordered(sorted, file);
    r := RemoveStale(sorted, now);
  }

  /** What the rewritten file holds: newest first; only records within the
      window; every record of the file within the window, as often as it was
      there; nothing that was not in the file; and for each date, exactly that
      date's records in file order, or none if the date is outside the
      window. */
  lemma PrunedFacts(file: seq<Case>, now: Instant)
    ensures SortedDesc(Pruned(file, now))
    ensures forall c :: c in Pruned(file, now) ==> FreshDate(c.dateFiled, now)
    ensures forall c: Case :: FreshDate(c.dateFiled, now) ==> multiset(Pruned(file, now))[c] == multiset(file)[c]
    ensures multiset(Pruned(file, now)) <= multiset(file)
    ensures forall k ::
      Filter(FiledOn(k), Pruned(file, now)) == (if FreshDate(k, now) then Filter(FiledOn(k), file) else [])
  {
    var sorted := SortDesc(file);
    SortDescSorted(file);
    FilterSortedDesc(Fresh(now), sorted);
    FilterMembers(Fresh(now), sorted);
    forall c
      ensures multiset(Pruned(file, now))[c] == if FreshDate(c.dateFiled, now) then multiset(file)[c] else 0
    {
      FilterMultiset(Fresh(now), sorted, c);
    }
    forall k
      ensures Filter(FiledOn(k), Pruned(file, now)) == if FreshDate(k, now) then Filter(FiledOn(k), file) else []
    {
      PrunedOnDate(file, now, k);
    }
  }

  /** The records of one date in the rewritten file: all of that date's
      records in file order when the date is within the window, none
      otherwise. */
  lemma PrunedOnDate(file: seq<Case>, now: Instant, k: string)
    ensures Filter(FiledOn(k), Pruned(file, now)) == if FreshDate(k, now) then Filter(FiledOn(k), file) else []
  {
    var sorted := SortDesc(file);
    var onDate := Filter(FiledOn(k), file);
    FilterFilter(FiledOn(k), Fresh(now), sorted);
    SortStable(file, k);
    FilterMembers(FiledOn(k), file);
    if FreshDate(k, now) {
      FilterAll(Fresh(now), onDate);
    } else {
      FilterNone(Fresh(now), onDate);
    }
  }

  /** Filtering a newest-first sequence keeps it newest first. */
  lemma {:induction false} FilterSortedDesc(p: Case -> bool, s: seq<Case>)
    requires SortedDesc(s)
    ensures SortedDesc(Filter(p, s))
    decreases |s|
  {
    if s != [] {
      FilterSortedDesc(p, s[1..]);
      FilterMembers(p, s[1..]);
      if p(s[0]) {
        var r := [s[0]] + Filter(p, s[1..]);
        forall i, j | 0 <= i < j < |r|
          ensures LexLeq(r[j].dateFiled, r[i].dateFiled)
        {
          if i == 0 {
            assert r[j] in s[1..];
          }
        }
      }
    }
  }

  /** A run's history maintenance end to end: the file read at the start of
      the run, with the unseen search results appended and then pruned, holds
      every searched case within the window, so the next run will not report
      it again. */
  lemma SearchedCasesRemembered(cases: seq<Case>, history: seq<Case>, now: Instant, c: Case)
    requires c in cases && FreshDate(c.dateFiled, now)
    ensures c in Pruned(history + Unseen(cases, history), now)
  {
    var merged := history + Unseen(cases, history);
    NothingNewAfterMerge(cases, history);
    FilterMembers(Fresh(now), SortDesc(merged));
    assert c in multiset(SortDesc(merged));
  }
}
