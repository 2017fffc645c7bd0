/**
 The record type, what a filter means, and the relational operations a review
 asks the database for: selection, newest-first order, and the class tally.
 */
module Observations {
  import opened Collation
  import opened Timestamps

  datatype Observation = Observation(
    cls: string, text: string, scopeKind: string, scopeRef: string, subject: string, agent: string)

  datatype Record = Record(id: string, recordedAt: string, obs: Observation)

  /** Go's zero values mean "not set": the empty string, and ZERO_INSTANT for a time. */
  datatype Filter = Filter(
    cls: string, scopeKind: string, scopeRef: string,
    since: Instant, before: Instant, beforeId: string, limit: int)

  datatype ClassCount = ClassCount(cls: string, count: nat)

  const DEFAULT_LIMIT := 50

  /** The size of a page; a limit that is not positive asks for the default. */
  function PageSize(f: Filter): (n: nat)
    ensures n > 0
  {
    if f.limit <= 0 then DEFAULT_LIMIT else f.limit
  }

  // ---------- The sort key ----------

  /** The order of (recorded_at, id) pairs. */
  predicate PairLess(at: string, id: string, at': string, id': string) {
    Less(at, at') || (at == at' && Less(id, id'))
  }

  predicate KeyLess(a: Record, b: Record) {
    PairLess(a.recordedAt, a.id, b.recordedAt, b.id)
  }

  lemma PairLessIsTotal(at: string, id: string, at': string, id': string)
    ensures PairLess(at, id, at', id') ==> !PairLess(at', id', at, id)
    ensures !PairLess(at, id, at', id') <==> (at == at' && id == id') || PairLess(at', id', at, id)
  {
    LessIsTotal(at, at');
    LessIsTotal(id, id');
  }

  lemma PairLessIsTransitive(at: string, id: string, at': string, id': string, at'': string, id'': string)
    requires PairLess(at, id, at', id') && PairLess(at', id', at'', id'')
    ensures PairLess(at, id, at'', id'')
  {
    if Less(at, at') && Less(at', at'') {
      LessIsTransitive(at, at', at'');
    } else if at == at' == at'' {
      LessIsTransitive(id, id', id'');
    }
  }

  lemma KeyLessIsTransitive(a: Record, b: Record, c: Record)
    requires KeyLess(a, b) && KeyLess(b, c)
    ensures KeyLess(a, c)
  {
    PairLessIsTransitive(a.recordedAt, a.id, b.recordedAt, b.id, c.recordedAt, c.id);
  }

  /** PRIMARY KEY: no id occurs twice. */
  predicate UniqueIds(rows: seq<Record>) {
    forall i, j :: 0 <= i < j < |rows| ==> rows[i].id != rows[j].id
  }

  // ---------- Selection ----------

  /** The conditions that are the same on every page of a walk. */
  predicate MeetsFields(f: Filter, r: Record) {
    && (f.cls == "" || r.obs.cls == f.cls)
    && (f.scopeKind == "" || r.obs.scopeKind == f.scopeKind)
    && (f.scopeRef == "" || r.obs.scopeRef == f.scopeRef)
    && (f.since == ZERO_INSTANT || !Less(r.recordedAt, FormatTime(f.since)))
  }

  /** The bound a page ends at: a pair when an id is given, else a time alone. */
  predicate BelowBound(f: Filter, r: Record) {
    || f.before == ZERO_INSTANT
    || (if f.beforeId == "" then Less(r.recordedAt, FormatTime(f.before))
        else PairLess(r.recordedAt, r.id, FormatTime(f.before), f.beforeId))
  }

  /** A row meets a filter when it meets every field that is set. */
  predicate Matches(f: Filter, r: Record) {
    MeetsFields(f, r) && BelowBound(f, r)
  }

  /** A bound that admits a row admits every row below it. */
  lemma BoundIsDownward(f: Filter, r: Record, last: Record)
    requires BelowBound(f, last) && KeyLess(r, last)
    ensures BelowBound(f, r)
  {
    if f.before != ZERO_INSTANT {
      var at := FormatTime(f.before);
      if f.beforeId == "" {
        if r.recordedAt != last.recordedAt {
          LessIsTransitive(r.recordedAt, last.recordedAt, at);
        }
      } else {
        PairLessIsTransitive(r.recordedAt, r.id, last.recordedAt, last.id, at, f.beforeId);
      }
    }
  }

  function Match(rows: seq<Record>, f: Filter): (m: seq<Record>)
    ensures |m| <= |rows|
  {
    if rows == [] then []
    else if Matches(f, rows[0]) then [rows[0]] + Match(rows[1..], f)
    else Match(rows[1..], f)
  }

  lemma {:induction false} MatchMembers(rows: seq<Record>, f: Filter, r: Record)
    ensures r in Match(rows, f) <==> r in rows && Matches(f, r)
  {
    if rows != [] {
      MatchMembers(rows[1..], f, r);
      assert r in rows <==> r == rows[0] || r in rows[1..];
    }
  }

  lemma {:induction false} MatchUnique(rows: seq<Record>, f: Filter)
    requires UniqueIds(rows)
    ensures UniqueIds(Match(rows, f))
  {
    if rows != [] {
      MatchUnique(rows[1..], f);
      forall j | 0 <= j < |Match(rows[1..], f)|
        ensures Match(rows[1..], f)[j].id != rows[0].id
      {
        MatchMembers(rows[1..], f, Match(rows[1..], f)[j]);
      }
    }
  }

  lemma {:induction false} MatchAppend(rows: seq<Record>, more: seq<Record>, f: Filter)
    ensures Match(rows + more, f) == Match(rows, f) + Match(more, f)
  {
    if rows == [] {
      assert rows + more == more;
    } else {
      assert (rows + more)[1..] == rows[1..] + more;
      MatchAppend(rows[1..], more, f);
    }
  }

  // ---------- ORDER BY recorded_at DESC, id DESC ----------

  function InsertNewest(r: Record, s: seq<Record>): (t: seq<Record>)
    ensures |t| == |s| + 1
  {
    if s == [] then [r]
    else if KeyLess(s[0], r) then [r] + s
    else [s[0]] + InsertNewest(r, s[1..])
  }

  function Newest(rows: seq<Record>): (s: seq<Record>)
    ensures |s| == |rows|
  {
    if rows == [] then [] else InsertNewest(rows[0], Newest(rows[1..]))
  }

  predicate NewestFirst(s: seq<Record>) {
    forall i, j :: 0 <= i < j < |s| ==> KeyLess(s[j], s[i])
  }

  lemma {:induction false} InsertNewestMembers(r: Record, s: seq<Record>)
    ensures multiset(InsertNewest(r, s)) == multiset(s) + multiset{r}
  {
    if s != [] {
      InsertNewestMembers(r, s[1..]);
      assert s == [s[0]] + s[1..];
    }
  }

  /** Sorting keeps every row as often as it was there. */
  lemma {:induction false} NewestMembers(rows: seq<Record>)
    ensures multiset(Newest(rows)) == multiset(rows)
  {
    if rows != [] {
      NewestMembers(rows[1..]);
      InsertNewestMembers(rows[0], Newest(rows[1..]));
      assert rows == [rows[0]] + rows[1..];
    }
  }

  lemma NewestHas(rows: seq<Record>, r: Record)
    ensures r in Newest(rows) <==> r in rows
  {
    NewestMembers(rows);
    assert r in Newest(rows) <==> r in multiset(Newest(rows));
    assert r in rows <==> r in multiset(rows);
  }

  lemma {:induction false} InsertNewestOrder(r: Record, s: seq<Record>)
    requires NewestFirst(s) && forall x :: x in s ==> x.id != r.id
    ensures NewestFirst(InsertNewest(r, s))
  {
    if s != [] {
      PairLessIsTotal(s[0].recordedAt, s[0].id, r.recordedAt, r.id);
      if KeyLess(s[0], r) {
        forall j | 1 <= j < |s|
          ensures KeyLess(s[j], r)
        {
          PairLessIsTransitive(s[j].recordedAt, s[j].id, s[0].recordedAt, s[0].id, r.recordedAt, r.id);
        }
      } else {
        var t := InsertNewest(r, s[1..]);
        InsertNewestOrder(r, s[1..]);
        InsertNewestMembers(r, s[1..]);
        forall j | 0 <= j < |t|
          ensures KeyLess(t[j], s[0])
        {
          assert t[j] in multiset(t);
          assert t[j] == r || t[j] in s[1..];
        }
      }
    }
  }

  /** Rows with distinct ids come out strictly newest first. */
  lemma {:induction false} NewestIsOrdered(rows: seq<Record>)
    requires UniqueIds(rows)
    ensures NewestFirst(Newest(rows))
  {
    if rows != [] {
      NewestIsOrdered(rows[1..]);
      forall x | x in Newest(rows[1..])
        ensures x.id != rows[0].id
      {
        NewestHas(rows[1..], x);
      }
      InsertNewestOrder(rows[0], Newest(rows[1..]));
    }
  }

  /** Rows newest first that lie below the last of the first n are those after the first n. */
  lemma {:induction false} BelowLastOfPage(s: seq<Record>, n: nat, r: Record)
    requires NewestFirst(s) && 0 < n <= |s| && r in s
    ensures KeyLess(r, s[n - 1]) <==> r in s[n..]
    ensures KeyLess(r, s[n - 1]) <==> r !in s[..n]
  {
    var i :| 0 <= i < |s| && s[i] == r;
    PairLessIsTotal(r.recordedAt, r.id, s[n - 1].recordedAt, s[n - 1].id);
    if i < n {
      assert !KeyLess(r, s[n - 1]);
      assert r == s[..n][i];
    } else {
      assert r == s[n..][i - n];
    }
  }

  // ---------- GROUP BY class ORDER BY COUNT(*) DESC, class ASC ----------

  function Multiplicity(rows: seq<Record>, cls: string): nat {
    if rows == [] then 0 else Multiplicity(rows[1..], cls) + if rows[0].obs.cls == cls then 1 else 0
  }

  predicate TallyBefore(a: ClassCount, b: ClassCount) {
    a.count > b.count || (a.count == b.count && Less(a.cls, b.cls))
  }

  /** Strictly ordered, with no class twice. */
  predicate TallyOrder(t: seq<ClassCount>) {
    t != [] ==>
      && (forall e :: e in t[1..] ==> TallyBefore(t[0], e) && e.cls != t[0].cls)
      && TallyOrder(t[1..])
  }

  /** The tally without a class. */
  function Without(t: seq<ClassCount>, cls: string): (u: seq<ClassCount>) {
    if t == [] then [] else if t[0].cls == cls then Without(t[1..], cls) else [t[0]] + Without(t[1..], cls)
  }

  function Place(t: seq<ClassCount>, e: ClassCount): (u: seq<ClassCount>) {
    if t == [] then [e] else if TallyBefore(e, t[0]) then [e] + t else [t[0]] + Place(t[1..], e)
  }

  function CountIn(t: seq<ClassCount>, cls: string): nat {
    if t == [] then 0 else CountIn(t[1..], cls) + if t[0].cls == cls then t[0].count else 0
  }

  function Sum(t: seq<ClassCount>): nat {
    if t == [] then 0 else t[0].count + Sum(t[1..])
  }

  function Tally(rows: seq<Record>): seq<ClassCount> {
    if rows == [] then []
    else
      var t, cls := Tally(rows[1..]), rows[0].obs.cls;
      Place(Without(t, cls), ClassCount(cls, CountIn(t, cls) + 1))
  }

  /** What a tally of rows has to be. */
  ghost predicate IsTally(rows: seq<Record>, t: seq<ClassCount>) {
    && (forall i, j :: 0 <= i < j < |t| ==> TallyBefore(t[i], t[j]) && t[i].cls != t[j].cls)
    && (forall e :: e in t ==> e.count == Multiplicity(rows, e.cls) > 0)
    && (forall r :: r in rows ==> ClassCount(r.obs.cls, Multiplicity(rows, r.obs.cls)) in t)
    && Sum(t) == |rows|
  }

  lemma {:induction false} WithoutProperties(t: seq<ClassCount>, cls: string)
    requires TallyOrder(t)
    ensures TallyOrder(Without(t, cls))
    ensures forall e :: e in Without(t, cls) <==> e in t && e.cls != cls
    ensures Sum(t) == Sum(Without(t, cls)) + CountIn(t, cls)
  {
    if t != [] {
      WithoutProperties(t[1..], cls);
      assert t == [t[0]] + t[1..];
    }
  }

  lemma TallyBeforeIsTotal(a: ClassCount, b: ClassCount)
    requires a.cls != b.cls
    ensures TallyBefore(a, b) <==> !TallyBefore(b, a)
  {
    LessIsTotal(a.cls, b.cls);
  }

  lemma TallyBeforeIsTransitive(a: ClassCount, b: ClassCount, c: ClassCount)
    requires TallyBefore(a, b) && TallyBefore(b, c)
    ensures TallyBefore(a, c)
  {
    if a.count == b.count == c.count {
      LessIsTransitive(a.cls, b.cls, c.cls);
    }
  }

  lemma {:induction false} PlaceProperties(t: seq<ClassCount>, e: ClassCount)
    requires TallyOrder(t) && forall x :: x in t ==> x.cls != e.cls
    ensures TallyOrder(Place(t, e))
    ensures forall x :: x in Place(t, e) <==> x in t || x == e
    ensures Sum(Place(t, e)) == Sum(t) + e.count
  {
    if t != [] {
      assert t == [t[0]] + t[1..];
      TallyBeforeIsTotal(t[0], e);
      if TallyBefore(e, t[0]) {
        forall x | x in t[1..]
          ensures TallyBefore(e, x)
        {
          TallyBeforeIsTransitive(e, t[0], x);
        }
        assert ([e] + t)[1..] == t;
      } else {
        PlaceProperties(t[1..], e);
        assert ([t[0]] + Place(t[1..], e))[1..] == Place(t[1..], e);
      }
    }
  }

  lemma {:induction false} CountInIsCount(t: seq<ClassCount>, cls: string)
    requires TallyOrder(t)
    ensures (exists e :: e in t && e.cls == cls) ==> ClassCount(cls, CountIn(t, cls)) in t
    ensures (forall e :: e in t ==> e.cls != cls) ==> CountIn(t, cls) == 0
    ensures forall e :: e in t && e.cls == cls ==> e.count == CountIn(t, cls)
  {
    if t != [] {
      CountInIsCount(t[1..], cls);
      assert t == [t[0]] + t[1..];
      if t[0].cls == cls {
        assert CountIn(t, cls) == t[0].count;
        assert t[0] == ClassCount(cls, CountIn(t, cls));
      }
    }
  }

  ghost predicate TallyOf(rows: seq<Record>, t: seq<ClassCount>) {
    && TallyOrder(t)
    && (forall e :: e in t ==> e.count > 0)
    && (forall cls :: CountIn(t, cls) == Multiplicity(rows, cls))
    && Sum(t) == |rows|
  }

  lemma {:induction false} TallyIsTallyOf(rows: seq<Record>)
    ensures TallyOf(rows, Tally(rows))
  {
    if rows != [] {
      TallyIsTallyOf(rows[1..]);
      var t, cls := Tally(rows[1..]), rows[0].obs.cls;
      var u, e := Without(t, cls), ClassCount(cls, CountIn(t, cls) + 1);
      WithoutProperties(t, cls);
      PlaceProperties(u, e);
      forall c
        ensures CountIn(Place(u, e), c) == Multiplicity(rows, c)
      {
        CountInPlace(u, e, c);
        CountInWithout(t, cls, c);
      }
    }
  }

  lemma {:induction false} CountInWithout(t: seq<ClassCount>, cls: string, c: string)
    ensures CountIn(Without(t, cls), c) == if c == cls then 0 else CountIn(t, c)
  {
    if t != [] {
      CountInWithout(t[1..], cls, c);
      assert ([t[0]] + Without(t[1..], cls))[1..] == Without(t[1..], cls);
    }
  }

  lemma {:induction false} CountInPlace(t: seq<ClassCount>, e: ClassCount, c: string)
    ensures CountIn(Place(t, e), c) == CountIn(t, c) + if e.cls == c then e.count else 0
  {
    if t == [] {
      assert CountIn([e], c) == CountIn([], c) + if e.cls == c then e.count else 0 by {
        assert [e][1..] == [];
      }
    } else if TallyBefore(e, t[0]) {
      assert ([e] + t)[1..] == t;
    } else {
      CountInPlace(t[1..], e, c);
      assert ([t[0]] + Place(t[1..], e))[1..] == Place(t[1..], e);
    }
  }

  lemma {:induction false} TallyOrderAt(t: seq<ClassCount>, i: nat, j: nat)
    requires TallyOrder(t) && i < j < |t|
    ensures TallyBefore(t[i], t[j]) && t[i].cls != t[j].cls
  {
    if i == 0 {
      assert t[1..][j - 1] in t[1..];
    } else {
      TallyOrderAt(t[1..], i - 1, j - 1);
    }
  }

  lemma {:induction false} MultiplicityPositive(rows: seq<Record>, r: Record)
    requires r in rows
    ensures Multiplicity(rows, r.obs.cls) > 0
  {
    if r != rows[0] {
      MultiplicityPositive(rows[1..], r);
    }
  }

  /**
   The tally names each class that occurs exactly once with its exact
   multiplicity, largest first and equal counts by name, and adds up to the
   number of rows.
   */
  lemma TallyIsExact(rows: seq<Record>)
    ensures IsTally(rows, Tally(rows))
  {
    var t := Tally(rows);
    TallyIsTallyOf(rows);
    forall i, j | 0 <= i < j < |t|
      ensures TallyBefore(t[i], t[j]) && t[i].cls != t[j].cls
    {
      TallyOrderAt(t, i, j);
    }
    forall e | e in t
      ensures e.count == Multiplicity(rows, e.cls) > 0
    {
      CountInIsCount(t, e.cls);
    }
    forall r | r in rows
      ensures ClassCount(r.obs.cls, Multiplicity(rows, r.obs.cls)) in t
    {
      MultiplicityPositive(rows, r);
      CountInIsCount(t, r.obs.cls);
    }
  }
}
