/**
 Walking backward through the store: each page's last row is the cursor of the
 next page, while other processes go on appending.
 */
module Paging {
  import opened Collation
  import opened Timestamps
  import opened Observations
  import opened Sql
  import opened Store

  function PageOf(rows: seq<Record>, f: Filter): seq<Record> {
    ListingOf(rows, f).page
  }

  /** g asks for what f asks for, below the row `last`; page sizes may differ. */
  ghost predicate Resumes(g: Filter, f: Filter, last: Record) {
    && g.cls == f.cls && g.scopeKind == f.scopeKind && g.scopeRef == f.scopeRef && g.since == f.since
    && g.before != ZERO_INSTANT && FormatTime(g.before) == last.recordedAt
    && g.beforeId != "" && g.beforeId == last.id
  }

  /**
   A walk: the i-th page is read from the i-th log and the logs only grow; every
   page but the last has rows, and the next filter resumes below its last row.
   */
  ghost predicate IsWalk(logs: seq<seq<Record>>, filters: seq<Filter>, pages: seq<seq<Record>>) {
    && |logs| == |filters| == |pages| > 0
    && (forall i :: 0 <= i < |logs| ==> UniqueIds(logs[i]))
    && (forall i, j :: 0 <= i < j < |logs| ==> logs[i] <= logs[j])
    && (forall i :: 0 <= i < |pages| ==> pages[i] == PageOf(logs[i], filters[i]))
    && (forall i :: 0 <= i < |pages| - 1 ==> pages[i] != [])
    && (forall i :: 0 < i < |pages| ==> Resumes(filters[i], filters[0], pages[i - 1][|pages[i - 1]| - 1]))
    && pages[|pages| - 1] == []
  }

  lemma PageMembers(rows: seq<Record>, f: Filter, r: Record)
    requires UniqueIds(rows) && r in PageOf(rows, f)
    ensures r in rows && Matches(f, r)
    ensures
      var page := PageOf(rows, f);
      r == page[|page| - 1] || KeyLess(page[|page| - 1], r)
  {
    var m := Match(rows, f);
    var s, page := Newest(m), PageOf(rows, f);
    MatchUnique(rows, f);
    NewestIsOrdered(m);
    var i :| 0 <= i < |page| && page[i] == r;
    assert s[i] == r;
    NewestHas(m, r);
    MatchMembers(rows, f, r);
    if i < |page| - 1 {
      assert KeyLess(s[|page| - 1], s[i]);
    }
  }

  /** A matching row is on the page or below its last row; an empty page leaves no matching row. */
  lemma PageOrBelow(rows: seq<Record>, f: Filter, r: Record)
    requires UniqueIds(rows) && r in rows && Matches(f, r)
    ensures
      var page := PageOf(rows, f);
      page != [] && (r in page || KeyLess(r, page[|page| - 1]))
  {
    var m := Match(rows, f);
    var s, page := Newest(m), PageOf(rows, f);
    MatchUnique(rows, f);
    NewestIsOrdered(m);
    MatchMembers(rows, f, r);
    NewestHas(m, r);
    if PageSize(f) <= |s| {
      BelowLastOfPage(s, PageSize(f), r);
    }
  }

  /** Below the cursor means below the row it was taken from. */
  lemma ResumesBelow(g: Filter, f: Filter, last: Record, r: Record)
    requires Resumes(g, f, last)
    ensures Matches(g, r) <==> MeetsFields(f, r) && KeyLess(r, last)
  {
    hide FormatTime, Less;
  }

  /** What a walk says of its k-th page. */
  lemma WalkAt(logs: seq<seq<Record>>, filters: seq<Filter>, pages: seq<seq<Record>>, k: nat)
    requires IsWalk(logs, filters, pages) && k < |pages|
    ensures |logs| == |filters| == |pages| && UniqueIds(logs[k]) && pages[k] == PageOf(logs[k], filters[k])
    ensures k > 0 ==>
      && pages[k - 1] != []
      && Resumes(filters[k], filters[0], pages[k - 1][|pages[k - 1]| - 1])
      && pages[k - 1][|pages[k - 1]| - 1] in pages[k - 1]
  {
    hide PageOf, Resumes, UniqueIds;
  }

  /** Rows of a later page lie below every row of an earlier one. */
  lemma {:induction false} LaterPagesLower(
    logs: seq<seq<Record>>, filters: seq<Filter>, pages: seq<seq<Record>>, i: nat, k: nat, a: Record, b: Record)
    requires IsWalk(logs, filters, pages)
    requires i < k < |pages| && a in pages[i] && b in pages[k]
    ensures KeyLess(b, a)
    decreases k
  {
    hide *;
    WalkAt(logs, filters, pages, i);
    WalkAt(logs, filters, pages, k);
    var last := pages[k - 1][|pages[k - 1]| - 1];
    PageMembers(logs[k], filters[k], b);
    ResumesBelow(filters[k], filters[0], last, b);
    if i == k - 1 {
      PageMembers(logs[i], filters[i], a);
    } else {
      LaterPagesLower(logs, filters, pages, i, k - 1, a, last);
    }
    if a != last {
      KeyLessIsTransitive(b, last, a);
    }
  }

  /** A row that matched at the start is on an earlier page or still to come. */
  lemma {:induction false} DeliveredOrPending(
    logs: seq<seq<Record>>, filters: seq<Filter>, pages: seq<seq<Record>>, r: Record, k: nat)
    requires IsWalk(logs, filters, pages) && k < |pages|
    requires r in logs[0] && Matches(filters[0], r)
    ensures (exists i :: 0 <= i < k && r in pages[i]) || Matches(filters[k], r)
    decreases k
  {
    hide *;
    if k > 0 {
      DeliveredOrPending(logs, filters, pages, r, k - 1);
      WalkAt(logs, filters, pages, k - 1);
      WalkAt(logs, filters, pages, k);
      if Matches(filters[k - 1], r) {
        var last := pages[k - 1][|pages[k - 1]| - 1];
        InLog(logs, filters, pages, r, k - 1);
        FieldsMet(filters[0], r);
        PageOrBelow(logs[k - 1], filters[k - 1], r);
        if r !in pages[k - 1] {
          ResumesBelow(filters[k], filters[0], last, r);
        }
      }
    }
  }

  lemma FieldsMet(f: Filter, r: Record)
    requires Matches(f, r)
    ensures MeetsFields(f, r)
  {
  }

  lemma InLog(logs: seq<seq<Record>>, filters: seq<Filter>, pages: seq<seq<Record>>, r: Record, k: nat)
    requires IsWalk(logs, filters, pages) && k < |logs| && r in logs[0]
    ensures r in logs[k]
  {
    if k > 0 {
      assert logs[0] <= logs[k];
    }
  }

  /** No id is delivered twice, neither on one page nor on two. */
  lemma DeliveredOnce(
    logs: seq<seq<Record>>, filters: seq<Filter>, pages: seq<seq<Record>>, i: nat, j: nat, k: nat, l: nat)
    requires IsWalk(logs, filters, pages)
    requires i < |pages| && j < |pages[i]| && k < |pages| && l < |pages[k]|
    requires pages[i][j].id == pages[k][l].id
    ensures i == k && j == l
  {
    if i < k {
      SeparatePages(logs, filters, pages, i, j, k, l);
    } else if k < i {
      SeparatePages(logs, filters, pages, k, l, i, j);
    } else {
      WalkAt(logs, filters, pages, i);
      hide IsWalk, Matches;
      var m := Match(logs[i], filters[i]);
      MatchUnique(logs[i], filters[i]);
      NewestUnique(m);
      assert pages[i][j] == Newest(m)[j] && pages[i][l] == Newest(m)[l];
    }
  }

  lemma NewestUnique(rows: seq<Record>)
    requires UniqueIds(rows)
    ensures UniqueIds(Newest(rows))
  {
    var s := Newest(rows);
    NewestIsOrdered(rows);
    forall i, j | 0 <= i < j < |s|
      ensures s[i].id != s[j].id
    {
      assert KeyLess(s[j], s[i]);
      PairLessIsTotal(s[j].recordedAt, s[j].id, s[i].recordedAt, s[i].id);
      NewestHas(rows, s[i]);
      NewestHas(rows, s[j]);
    }
  }

  lemma SeparatePages(
    logs: seq<seq<Record>>, filters: seq<Filter>, pages: seq<seq<Record>>, i: nat, j: nat, k: nat, l: nat)
    requires IsWalk(logs, filters, pages)
    requires i < k < |pages| && j < |pages[i]| && l < |pages[k]|
    ensures pages[i][j].id != pages[k][l].id
  {
    WalkAt(logs, filters, pages, i);
    WalkAt(logs, filters, pages, k);
    assert logs[i] <= logs[k];
    hide Matches, PageOf, IsWalk, Less;
    var a, b := pages[i][j], pages[k][l];
    LaterPagesLower(logs, filters, pages, i, k, a, b);
    PairLessIsTotal(b.recordedAt, b.id, a.recordedAt, a.id);
    PageMembers(logs[i], filters[i], a);
    PageMembers(logs[k], filters[k], b);
  }

  /**
   A walk delivers every row that matched when it began, and no row twice,
   whatever was appended between its pages.
   */
  lemma WalkDeliversExactlyOnce(logs: seq<seq<Record>>, filters: seq<Filter>, pages: seq<seq<Record>>)
    requires IsWalk(logs, filters, pages)
    ensures forall r :: r in logs[0] && Matches(filters[0], r) ==>
      exists i, j :: 0 <= i < |pages| && 0 <= j < |pages[i]| && pages[i][j] == r
    ensures forall i, j, k, l ::
      (0 <= i < |pages| && 0 <= j < |pages[i]| && 0 <= k < |pages| && 0 <= l < |pages[k]|
       && pages[i][j].id == pages[k][l].id) ==> i == k && j == l
    ensures forall i, j :: 0 <= i < |pages| && 0 <= j < |pages[i]| ==>
      pages[i][j] in logs[i] && Matches(filters[i], pages[i][j])
  {
    var n := |pages| - 1;
    hide Matches, PageOf;
    forall r | r in logs[0] && Matches(filters[0], r)
      ensures exists i, j :: 0 <= i < |pages| && 0 <= j < |pages[i]| && pages[i][j] == r
    {
      DeliveredOrPending(logs, filters, pages, r, n);
      if Matches(filters[n], r) {
        InLog(logs, filters, pages, r, n);
        PageOrBelow(logs[n], filters[n], r);
      }
      var i :| 0 <= i < n && r in pages[i];
      var j :| 0 <= j < |pages[i]| && pages[i][j] == r;
    }
    forall i, j, k, l | 0 <= i < |pages| && 0 <= j < |pages[i]| && 0 <= k < |pages| && 0 <= l < |pages[k]|
                        && pages[i][j].id == pages[k][l].id
      ensures i == k && j == l
    {
      DeliveredOnce(logs, filters, pages, i, j, k, l);
    }
    forall i, j | 0 <= i < |pages| && 0 <= j < |pages[i]|
      ensures pages[i][j] in logs[i] && Matches(filters[i], pages[i][j])
    {
      PageMembers(logs[i], filters[i], pages[i][j]);
    }
  }

  // ---------- An unchanging store ----------

  /** There is only one newest-first arrangement of the same rows. */
  lemma {:induction false} NewestFirstIsUnique(a: seq<Record>, b: seq<Record>)
    requires NewestFirst(a) && NewestFirst(b)
    requires forall r :: r in a <==> r in b
    ensures a == b
  {
    assert b != [] ==> b[0] in b;
    if a != [] {
      assert a[0] in b && b != [] && b[0] in a;
      PairLessIsTotal(a[0].recordedAt, a[0].id, b[0].recordedAt, b[0].id);
      assert a[0] == b[0];
      forall r
        ensures r in a[1..] <==> r in b[1..]
      {
        NotAgain(a, r);
        NotAgain(b, r);
      }
      NewestFirstIsUnique(a[1..], b[1..]);
      assert a == [a[0]] + a[1..] && b == [b[0]] + b[1..];
    }
  }

  lemma NotAgain(s: seq<Record>, r: Record)
    requires NewestFirst(s) && s != []
    ensures r in s[1..] <==> r in s && r != s[0]
  {
    if r in s && r != s[0] {
      var i :| 0 <= i < |s| && s[i] == r;
      assert s[1..][i - 1] == r;
    }
    if r in s[1..] {
      var i :| 0 <= i < |s[1..]| && s[1..][i] == r;
      assert s[i + 1] == r && KeyLess(s[i + 1], s[0]);
      PairLessIsTotal(r.recordedAt, r.id, s[0].recordedAt, s[0].id);
    }
  }

  /** f is the filter a walk starts with, or one it came to. */
  ghost predicate OnWalk(f: Filter, start: Filter) {
    f == start || exists previous :: Resumes(f, start, previous)
  }

  lemma RestMatches(f: Filter, g: Filter, start: Filter, last: Record, r: Record)
    requires Resumes(g, start, last) && Matches(f, last) && OnWalk(f, start)
    ensures Matches(g, r) <==> Matches(f, r) && KeyLess(r, last)
  {
    hide FormatTime, Less;
    ResumesBelow(g, start, last, r);
    if KeyLess(r, last) {
      BoundIsDownward(f, r, last);
    }
  }

  /** On the same rows, resuming below a page's last row asks for exactly what the page left out. */
  lemma RestAfterPage(rows: seq<Record>, f: Filter, g: Filter, start: Filter)
    requires UniqueIds(rows) && PageOf(rows, f) != [] && OnWalk(f, start)
    requires Resumes(g, start, PageOf(rows, f)[|PageOf(rows, f)| - 1])
    ensures Newest(Match(rows, g)) == Newest(Match(rows, f))[|PageOf(rows, f)|..]
  {
    var n := |PageOf(rows, f)|;
    var s, t := Newest(Match(rows, f)), Newest(Match(rows, g));
    var last := s[n - 1];
    assert last == PageOf(rows, f)[n - 1];
    MatchUnique(rows, f);
    MatchUnique(rows, g);
    NewestIsOrdered(Match(rows, f));
    NewestIsOrdered(Match(rows, g));
    PageMembers(rows, f, last);
    hide Match, Newest, Matches, Resumes, OnWalk, PageOf, KeyLess;
    forall r
      ensures r in t <==> r in s[n..]
    {
      NewestHas(Match(rows, f), r);
      NewestHas(Match(rows, g), r);
      MatchMembers(rows, f, r);
      MatchMembers(rows, g, r);
      RestMatches(f, g, start, last, r);
      if r in s {
        BelowLastOfPage(s, n, r);
      } else {
        assert r !in s[n..];
      }
    }
    NewestFirstIsUnique(t, s[n..]);
  }
}
