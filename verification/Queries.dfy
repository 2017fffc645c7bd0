/**
 The statements the store sends, and what they answer: the page newest first,
 the size of the match, the tally by class, and the row an insert adds.
 */
module Queries {
  import opened Wrappers
  import opened Sequences
  import opened Collation
  import opened Observations
  import opened Sql

  const ALL_COLUMNS: seq<Column> := [Id, RecordedAt, Class, Text, ScopeKind, ScopeRef, Subject, Agent]

  const PAGE_HEAD: seq<Token> := [SELECT] + Names(ALL_COLUMNS) + [FROM_OBSERVATION]
  const PAGE_TAIL: seq<Token> := [ORDER_BY, Name(RecordedAt), DESC, Comma, Name(Id), DESC, LIMIT, Placeholder]
  const COUNT_HEAD: seq<Token> := [SELECT, COUNT_ALL, FROM_OBSERVATION]
  const TALLY_HEAD: seq<Token> := [SELECT, Name(Class), Comma, COUNT_ALL, FROM_OBSERVATION]
  const TALLY_TAIL: seq<Token> := [GROUP_BY, Name(Class), ORDER_BY, COUNT_ALL, DESC, Comma, Name(Class), ASC]
  const INSERT: seq<Token> :=
    [INSERT_INTO_OBSERVATION, Open] + Names(ALL_COLUMNS) + [Close, VALUES, Open] + Marks(8) + [Close]

  // ---------- Rows on their way in and out ----------

  /** The arguments of the insert, in the order of its columns. */
  function InsertArgs(r: Record): seq<Value> {
    [Str(r.id), Str(r.recordedAt), Str(r.obs.cls), Str(r.obs.text),
     Str(r.obs.scopeKind), Str(r.obs.scopeRef), Str(r.obs.subject), Str(r.obs.agent)]
  }

  /** rows.Scan for a page: eight texts, each into its own field. */
  function ScanRecord(row: seq<Value>): Option<Record> {
    if |row| == 8 && forall i :: 0 <= i < 8 ==> row[i].Str? then
      Some(Record(row[0].s, row[1].s, Observation(row[2].s, row[3].s, row[4].s, row[5].s, row[6].s, row[7].s)))
    else None
  }

  function ScanClass(row: seq<Value>): Option<ClassCount> {
    if |row| == 2 && row[0].Str? && row[1].Num? && row[1].n >= 0 then Some(ClassCount(row[0].s, row[1].n)) else None
  }

  function ColumnTerms(columns: seq<Column>): seq<Term> {
    if columns == [] then [] else [ByColumn(columns[0])] + ColumnTerms(columns[1..])
  }

  /** A column and a comma before terms that can be read. */
  lemma OneMoreRead(c: Column, tokens: seq<Token>)
    requires ReadTerms(tokens).Some?
    ensures
      var (terms, rest) := ReadTerms(tokens).value;
      ReadTerms([Name(c), Comma] + tokens) == Some(([ByColumn(c)] + terms, rest))
  {
    assert ([Name(c), Comma] + tokens)[2..] == tokens;
  }

  lemma LastRead(c: Column, rest: seq<Token>)
    requires rest == [] || rest[0] != Comma
    ensures ReadTerms([Name(c)] + rest) == Some(([ByColumn(c)], rest))
  {
    assert ([Name(c)] + rest)[1..] == rest;
  }

  lemma {:induction false} NamesRead(columns: seq<Column>, rest: seq<Token>)
    requires columns != [] && (rest == [] || rest[0] != Comma)
    ensures ReadTerms(Names(columns) + rest) == Some((ColumnTerms(columns), rest))
  {
    hide ReadTerms;
    if |columns| == 1 {
      assert columns[1..] == [] && ColumnTerms(columns) == [ByColumn(columns[0])];
      LastRead(columns[0], rest);
    } else {
      var tokens := Names(columns[1..]) + rest;
      NamesRead(columns[1..], rest);
      OneMoreRead(columns[0], tokens);
      assert Names(columns) + rest == [Name(columns[0]), Comma] + tokens;
    }
  }

  lemma {:induction false} TermsAreColumns(columns: seq<Column>)
    ensures ColumnsOf(ColumnTerms(columns)) == Some(columns)
  {
    if columns != [] {
      TermsAreColumns(columns[1..]);
      assert ColumnTerms(columns)[1..] == ColumnTerms(columns[1..]);
      assert [columns[0]] + columns[1..] == columns;
    }
  }

  lemma InsertReads()
    ensures |INSERT| > 2 && INSERT[0] == INSERT_INTO_OBSERVATION && INSERT[1] == Open
    ensures ReadTerms(INSERT[2..]) == Some((ColumnTerms(ALL_COLUMNS), [Close, VALUES, Open] + Marks(8) + [Close]))
    ensures ColumnsOf(ColumnTerms(ALL_COLUMNS)) == Some(ALL_COLUMNS)
  {
    hide ReadTerms, Names, Marks, ColumnTerms, ColumnsOf;
    var rest := [Close, VALUES, Open] + Marks(8) + [Close];
    assert INSERT[2..] == Names(ALL_COLUMNS) + rest;
    NamesRead(ALL_COLUMNS, rest);
    TermsAreColumns(ALL_COLUMNS);
  }

  /** The insert, with its eight arguments, describes exactly the record. */
  lemma InsertAddsRecord(r: Record)
    ensures InsertedRow(INSERT, InsertArgs(r)) == Some(r)
  {
    hide ReadTerms, Names, Marks, ColumnTerms, ColumnsOf, BoundTo;
    InsertReads();
    AllBound(r);
  }

  lemma AllBound(r: Record)
    ensures
      var args := InsertArgs(r);
      && BoundTo(ALL_COLUMNS, args, Id) == Some(r.id) && BoundTo(ALL_COLUMNS, args, RecordedAt) == Some(r.recordedAt)
      && BoundTo(ALL_COLUMNS, args, Class) == Some(r.obs.cls) && BoundTo(ALL_COLUMNS, args, Text) == Some(r.obs.text)
      && BoundTo(ALL_COLUMNS, args, ScopeKind) == Some(r.obs.scopeKind)
      && BoundTo(ALL_COLUMNS, args, ScopeRef) == Some(r.obs.scopeRef)
      && BoundTo(ALL_COLUMNS, args, Subject) == Some(r.obs.subject)
      && BoundTo(ALL_COLUMNS, args, Agent) == Some(r.obs.agent)
  {
    forall i | 0 <= i < 8
      ensures BoundTo(ALL_COLUMNS, InsertArgs(r), ALL_COLUMNS[i]) == Some(InsertArgs(r)[i].s)
    {
      BoundAt(ALL_COLUMNS, InsertArgs(r), i);
    }
    assert ALL_COLUMNS[0] == Id && ALL_COLUMNS[1] == RecordedAt && ALL_COLUMNS[2] == Class && ALL_COLUMNS[3] == Text;
    assert ALL_COLUMNS[4] == ScopeKind && ALL_COLUMNS[5] == ScopeRef && ALL_COLUMNS[6] == Subject;
    assert ALL_COLUMNS[7] == Agent;
  }

  lemma {:induction false} BoundAt(columns: seq<Column>, args: seq<Value>, i: nat)
    requires |columns| == |args| && i < |columns| && args[i].Str?
    requires forall j, k :: 0 <= j < k < |columns| ==> columns[j] != columns[k]
    ensures BoundTo(columns, args, columns[i]) == Some(args[i].s)
  {
    if i > 0 {
      BoundAt(columns[1..], args[1..], i - 1);
    }
  }

  /** A row selected column by column and scanned is the row itself. */
  lemma RowComesBack(r: Record)
    ensures ScanRecord(Items(ColumnTerms(ALL_COLUMNS), [r])) == Some(r)
  {
    hide Items, ColumnTerms, Field;
    var row := Items(ColumnTerms(ALL_COLUMNS), [r]);
    forall i | 0 <= i < 8
      ensures |row| == 8 && row[i] == Str(Field(r, ALL_COLUMNS[i]))
    {
      SelectedAt(ALL_COLUMNS, r, i);
    }
    FieldsOf(r);
    assert ALL_COLUMNS[0] == Id && ALL_COLUMNS[1] == RecordedAt && ALL_COLUMNS[2] == Class && ALL_COLUMNS[3] == Text;
    assert ALL_COLUMNS[4] == ScopeKind && ALL_COLUMNS[5] == ScopeRef && ALL_COLUMNS[6] == Subject;
    assert ALL_COLUMNS[7] == Agent;
  }

  lemma SelectedAt(columns: seq<Column>, r: Record, i: nat)
    requires i < |columns|
    ensures
      var row := Items(ColumnTerms(columns), [r]);
      |row| == |columns| && row[i] == Str(Field(r, columns[i]))
  {
    hide Items, ColumnTerms, Field;
    TermsLength(columns);
    TermAt(columns, i);
    ItemsLength(ColumnTerms(columns), [r]);
    ItemAt(ColumnTerms(columns), [r], i);
  }

  lemma FieldsOf(r: Record)
    ensures Field(r, Id) == r.id && Field(r, RecordedAt) == r.recordedAt && Field(r, Class) == r.obs.cls
    ensures Field(r, Text) == r.obs.text && Field(r, ScopeKind) == r.obs.scopeKind && Field(r, ScopeRef) == r.obs.scopeRef
    ensures Field(r, Subject) == r.obs.subject && Field(r, Agent) == r.obs.agent
  {
  }

  lemma {:induction false} TermsLength(columns: seq<Column>)
    ensures |ColumnTerms(columns)| == |columns|
  {
    if columns != [] {
      TermsLength(columns[1..]);
    }
  }

  lemma {:induction false} TermAt(columns: seq<Column>, i: nat)
    requires i < |columns|
    ensures i < |ColumnTerms(columns)| && ColumnTerms(columns)[i] == ByColumn(columns[i])
  {
    if i > 0 {
      TermAt(columns[1..], i - 1);
    }
  }

  lemma {:induction false} ItemsLength(terms: seq<Term>, group: seq<Record>)
    ensures |Items(terms, group)| == |terms|
  {
    if terms != [] {
      ItemsLength(terms[1..], group);
    }
  }

  lemma {:induction false} ItemAt(terms: seq<Term>, group: seq<Record>, i: nat)
    requires i < |terms|
    ensures i < |Items(terms, group)| && Items(terms, group)[i] == TermOf(terms[i], group)
  {
    if i > 0 {
      ItemAt(terms[1..], group, i - 1);
    }
  }

  // ---------- ORDER BY recorded_at DESC, id DESC LIMIT ? ----------

  const PAGE_ORDER: seq<Sort> := [Sort(ByColumn(RecordedAt), true), Sort(ByColumn(Id), true)]

  lemma PageOrder(r: Record, s: Record)
    ensures Precedes(PAGE_ORDER, [r], [s]) <==> KeyLess(s, r)
  {
    assert PAGE_ORDER[1..] == [Sort(ByColumn(Id), true)] && PAGE_ORDER[1..][1..] == [];
    assert Precedes(PAGE_ORDER[1..], [r], [s]) <==> Less(s.id, r.id);
  }

  lemma {:induction false} InsertIsNewest(r: Record, s: seq<Record>)
    ensures InsertSorted(PAGE_ORDER, [r], Singles(s)) == Singles(InsertNewest(r, s))
  {
    hide Precedes, KeyLess;
    if s == [] {
      assert [r][1..] == [];
      assert Singles([r]) == [[r]] + Singles([]);
    } else {
      PageOrder(r, s[0]);
      assert Singles(s)[1..] == Singles(s[1..]);
      if KeyLess(s[0], r) {
        assert ([r] + s)[1..] == s;
      } else {
        InsertIsNewest(r, s[1..]);
        assert ([s[0]] + InsertNewest(r, s[1..]))[1..] == InsertNewest(r, s[1..]);
      }
    }
  }

  lemma {:induction false} SortedIsNewest(rows: seq<Record>)
    ensures Sorted(PAGE_ORDER, Singles(rows)) == Singles(Newest(rows))
  {
    if rows != [] {
      SortedIsNewest(rows[1..]);
      assert Singles(rows)[1..] == Singles(rows[1..]);
      InsertIsNewest(rows[0], Newest(rows[1..]));
    }
  }

  lemma {:induction false} SingleAt(rows: seq<Record>, i: nat)
    requires i < |rows|
    ensures Singles(rows)[i] == [rows[i]]
  {
    if i > 0 {
      SingleAt(rows[1..], i - 1);
    }
  }

  // ---------- GROUP BY class ORDER BY COUNT(*) DESC, class ASC ----------

  const TALLY_ORDER: seq<Sort> := [Sort(ByCount, true), Sort(ByColumn(Class), false)]
  const TALLY_ITEMS: seq<Term> := [ByColumn(Class), ByCount]

  /** The class of a group and its size. */
  function ClassOf(group: seq<Record>): ClassCount
    requires group != []
  {
    ClassCount(group[0].obs.cls, |group|)
  }

  predicate NoneEmpty(groups: seq<seq<Record>>) {
    forall i :: 0 <= i < |groups| ==> groups[i] != []
  }

  function Classes(groups: seq<seq<Record>>): (t: seq<ClassCount>)
    requires NoneEmpty(groups)
    ensures |t| == |groups| && forall i :: 0 <= i < |groups| ==> t[i] == ClassOf(groups[i])
  {
    if groups == [] then [] else [ClassOf(groups[0])] + Classes(groups[1..])
  }

  lemma TallyOrdering(g: seq<Record>, h: seq<Record>)
    requires g != [] && h != []
    ensures Precedes(TALLY_ORDER, g, h) <==> TallyBefore(ClassOf(g), ClassOf(h))
  {
    assert TALLY_ORDER[1..] == [Sort(ByColumn(Class), false)] && TALLY_ORDER[1..][1..] == [];
    assert Precedes(TALLY_ORDER[1..], g, h) <==> Less(g[0].obs.cls, h[0].obs.cls);
  }

  lemma {:induction false} InsertIsPlace(g: seq<Record>, groups: seq<seq<Record>>)
    requires g != [] && NoneEmpty(groups)
    ensures NoneEmpty(InsertSorted(TALLY_ORDER, g, groups))
    ensures Classes(InsertSorted(TALLY_ORDER, g, groups)) == Place(Classes(groups), ClassOf(g))
  {
    hide Precedes, TallyBefore;
    if groups == [] {
      assert [g][1..] == [];
    } else {
      TallyOrdering(g, groups[0]);
      assert Classes(groups)[1..] == Classes(groups[1..]);
      if Precedes(TALLY_ORDER, g, groups[0]) {
        assert ([g] + groups)[1..] == groups;
      } else {
        InsertIsPlace(g, groups[1..]);
        var rest := InsertSorted(TALLY_ORDER, g, groups[1..]);
        assert ([groups[0]] + rest)[1..] == rest;
      }
    }
  }

  /** Entries placed one after the other. */
  function PlaceAll(t: seq<ClassCount>): seq<ClassCount> {
    if t == [] then [] else Place(PlaceAll(t[1..]), t[0])
  }

  lemma {:induction false} SortedIsPlaced(groups: seq<seq<Record>>)
    requires NoneEmpty(groups)
    ensures NoneEmpty(Sorted(TALLY_ORDER, groups))
    ensures Classes(Sorted(TALLY_ORDER, groups)) == PlaceAll(Classes(groups))
  {
    if groups != [] {
      SortedIsPlaced(groups[1..]);
      assert Classes(groups)[1..] == Classes(groups[1..]);
      InsertIsPlace(groups[0], Sorted(TALLY_ORDER, groups[1..]));
    }
  }

  /** No class twice. */
  predicate Apart(t: seq<ClassCount>) {
    forall i, j :: 0 <= i < j < |t| ==> t[i].cls != t[j].cls
  }

  lemma {:induction false} PlacedProperties(t: seq<ClassCount>)
    requires Apart(t)
    ensures TallyOrder(PlaceAll(t)) && Sum(PlaceAll(t)) == Sum(t)
    ensures forall e :: e in PlaceAll(t) <==> e in t
    ensures forall cls :: CountIn(PlaceAll(t), cls) == CountIn(t, cls)
  {
    if t != [] {
      PlacedProperties(t[1..]);
      forall x | x in PlaceAll(t[1..])
        ensures x.cls != t[0].cls
      {
        assert x in t[1..];
      }
      PlaceProperties(PlaceAll(t[1..]), t[0]);
      forall cls
        ensures CountIn(PlaceAll(t), cls) == CountIn(t, cls)
      {
        CountInPlace(PlaceAll(t[1..]), t[0], cls);
      }
      assert t == [t[0]] + t[1..];
    }
  }

  /** What one more row does to the counts: its class gains one, and may be new. */
  ghost predicate Gains(t: seq<ClassCount>, u: seq<ClassCount>, cls: string) {
    && Apart(u) && Sum(u) == Sum(t) + 1
    && (forall e :: e in u ==> e.cls == cls || e in t)
    && (forall c :: CountIn(u, c) == CountIn(t, c) + if c == cls then 1 else 0)
  }

  lemma GainsFirst(t: seq<ClassCount>, cls: string)
    requires t != [] && t[0].cls == cls && Apart(t)
    ensures Gains(t, [ClassCount(cls, t[0].count + 1)] + t[1..], cls)
  {
    var u := [ClassCount(cls, t[0].count + 1)] + t[1..];
    assert u[1..] == t[1..];
    forall i, j | 0 <= i < j < |u|
      ensures u[i].cls != u[j].cls
    {
      assert u[i].cls == t[i].cls && u[j].cls == t[j].cls;
    }
  }

  lemma GainsLater(t: seq<ClassCount>, u: seq<ClassCount>, cls: string)
    requires t != [] && t[0].cls != cls && Apart(t) && Gains(t[1..], u, cls)
    ensures Gains(t, [t[0]] + u, cls)
  {
    var v := [t[0]] + u;
    assert v[1..] == u;
    forall i, j | 0 <= i < j < |v|
      ensures v[i].cls != v[j].cls
    {
      assert v[j] == u[j - 1] && u[j - 1] in u;
      if i == 0 && u[j - 1].cls != cls {
        var k :| 0 <= k < |t[1..]| && t[1..][k] == u[j - 1];
        assert t[k + 1] == u[j - 1];
      }
    }
  }

  lemma GainsNew(r: Record)
    ensures Gains([], [ClassCount(r.obs.cls, 1)], r.obs.cls)
  {
    assert [ClassCount(r.obs.cls, 1)][1..] == [];
  }

  /** A row that joins its group adds one to its class and touches no other. */
  lemma {:induction false} JoinCounts(groups: seq<seq<Record>>, r: Record)
    requires NoneEmpty(groups) && Apart(Classes(groups))
    ensures NoneEmpty(JoinGroup(groups, r, Class))
    ensures Gains(Classes(groups), Classes(JoinGroup(groups, r, Class)), r.obs.cls)
  {
    hide Gains;
    var joined, t := JoinGroup(groups, r, Class), Classes(groups);
    if groups == [] {
      assert joined == [[r]] && Classes(joined) == [ClassCount(r.obs.cls, 1)];
      GainsNew(r);
    } else {
      assert t[1..] == Classes(groups[1..]);
      if t[0].cls == r.obs.cls {
        assert joined[1..] == groups[1..];
        assert Classes(joined) == [ClassCount(r.obs.cls, t[0].count + 1)] + t[1..];
        GainsFirst(t, r.obs.cls);
      } else {
        JoinCounts(groups[1..], r);
        var rest := JoinGroup(groups[1..], r, Class);
        assert joined == [groups[0]] + rest && joined[1..] == rest;
        assert Classes(joined) == [t[0]] + Classes(rest);
        GainsLater(t, Classes(rest), r.obs.cls);
      }
    }
  }

  lemma {:induction false} GroupsCount(rows: seq<Record>)
    ensures
      var groups := GroupBy(rows, Class);
      && NoneEmpty(groups) && Apart(Classes(groups)) && Sum(Classes(groups)) == |rows|
      && (forall cls :: CountIn(Classes(groups), cls) == Multiplicity(rows, cls))
  {
    if rows != [] {
      GroupsCount(rows[1..]);
      JoinCounts(GroupBy(rows[1..], Class), rows[0]);
    }
  }

  /** There is only one ordered tally with given counts. */
  lemma {:induction false} TallyIsUnique(t: seq<ClassCount>, u: seq<ClassCount>)
    requires TallyOrder(t) && TallyOrder(u)
    requires forall e :: e in t <==> e in u
    ensures t == u
  {
    assert u != [] ==> u[0] in u;
    if t != [] {
      assert t[0] in u && u[0] in t;
      FirstOfTally(t, u[0]);
      FirstOfTally(u, t[0]);
      TallyBeforeIsTotal2(t[0], u[0]);
      forall e
        ensures e in t[1..] <==> e in u[1..]
      {
        RestOfTally(t, e);
        RestOfTally(u, e);
      }
      TallyIsUnique(t[1..], u[1..]);
      assert t == [t[0]] + t[1..] && u == [u[0]] + u[1..];
    }
  }

  lemma FirstOfTally(t: seq<ClassCount>, e: ClassCount)
    requires TallyOrder(t) && e in t
    ensures e == t[0] || TallyBefore(t[0], e)
  {
    assert t == [t[0]] + t[1..];
  }

  lemma TallyBeforeIsTotal2(a: ClassCount, b: ClassCount)
    ensures TallyBefore(a, b) ==> !TallyBefore(b, a) && a != b
  {
    LessIsTotal(a.cls, b.cls);
  }

  lemma RestOfTally(t: seq<ClassCount>, e: ClassCount)
    requires TallyOrder(t) && t != []
    ensures e in t[1..] <==> e in t && e != t[0]
  {
    assert t == [t[0]] + t[1..];
  }

  /** Grouped and sorted as the statement says, the classes are the tally. */
  lemma SortedIsTally(rows: seq<Record>)
    ensures
      var groups := GroupBy(rows, Class);
      && NoneEmpty(groups) && NoneEmpty(Sorted(TALLY_ORDER, groups))
      && Classes(Sorted(TALLY_ORDER, groups)) == Tally(rows)
  {
    hide Tally, PlaceAll, GroupBy, Sorted, Place, TallyOrder, CountIn, Sum, Multiplicity, Apart, NoneEmpty;
    var groups := GroupBy(rows, Class);
    GroupsCount(rows);
    SortedIsPlaced(groups);
    PlacedIsTally(rows, groups);
  }

  lemma PlacedIsTally(rows: seq<Record>, groups: seq<seq<Record>>)
    requires NoneEmpty(groups) && Apart(Classes(groups))
    requires forall cls :: CountIn(Classes(groups), cls) == Multiplicity(rows, cls)
    ensures PlaceAll(Classes(groups)) == Tally(rows)
  {
    hide Tally, PlaceAll, Place, TallyOrder, CountIn, Sum, Multiplicity;
    var t := Classes(groups);
    PlacedProperties(t);
    TallyIsTallyOf(rows);
    forall e | e in PlaceAll(t)
      ensures e.count > 0
    {
      var i :| 0 <= i < |t| && t[i] == e;
      assert groups[i] != [];
    }
    forall e
      ensures e in PlaceAll(t) <==> e in Tally(rows)
    {
      InTally(rows, PlaceAll(t), e);
      InTally(rows, Tally(rows), e);
    }
    TallyIsUnique(PlaceAll(t), Tally(rows));
  }

  lemma InTally(rows: seq<Record>, t: seq<ClassCount>, e: ClassCount)
    requires TallyOrder(t) && (forall x :: x in t ==> x.count > 0)
    requires forall cls :: CountIn(t, cls) == Multiplicity(rows, cls)
    ensures e in t <==> e.count == Multiplicity(rows, e.cls) > 0
  {
    hide TallyOrder, CountIn, Multiplicity;
    CountInIsCount(t, e.cls);
  }
}
