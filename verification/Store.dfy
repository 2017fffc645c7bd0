/**
 The store: opening and closing its two handles, appending a record, and
 listing a page with its total and class tally.

 Nothing outside the program is decided here. What storage, the clock, the
 random source and the other processes do is handed to each method as a
 parameter, and what is proved holds for every choice of it.
 */
module Store {
  import opened Wrappers
  import opened Sequences
  import opened Collation
  import opened Timestamps
  import opened Identifiers
  import opened Observations
  import opened Schema
  import opened Sql
  import opened Queries

  // ---------- Filter.where ----------

  predicate EndsPredicate(tokens: seq<Token>) {
    tokens != [] ==> tokens[0] != WHERE && tokens[0] != AND
  }

  /** The predicate reads as these conditions and takes exactly these arguments, whatever follows. */
  ghost predicate PredicateReads(predicate_: seq<Token>, args: seq<Value>, conditions: seq<Condition>) {
    forall tokens: seq<Token>, left: seq<Value> {:trigger ReadPredicate(predicate_ + tokens, args + left)} ::
      EndsPredicate(tokens) ==> ReadPredicate(predicate_ + tokens, args + left) == Some(Read(conditions, tokens, left))
  }

  ghost predicate Means(conditions: seq<Condition>, f: Filter) {
    forall r: Record :: AllHold(conditions, r) <==> Matches(f, r)
  }

  /** Bound to its arguments, the predicate accepts exactly the rows that meet the filter. */
  ghost predicate Compiles(predicate_: seq<Token>, args: seq<Value>, f: Filter) {
    exists conditions :: PredicateReads(predicate_, args, conditions) && Means(conditions, f)
  }

  lemma ExtendClauses(clauses: seq<Clause>, c: Clause)
    requires AllRead(clauses) && ClauseReads(c.tokens, c.args, c.condition)
    ensures AllRead(clauses + [c])
    ensures forall r: Record :: AllHold(ConditionsOf(clauses + [c]), r)
                           <==> AllHold(ConditionsOf(clauses), r) && Holds(c.condition, r)
  {
    AppendClause(clauses, c);
    var before := ConditionsOf(clauses);
    forall r: Record
      ensures AllHold(before + [c.condition], r) <==> AllHold(before, r) && Holds(c.condition, r)
    {
      assert (before + [c.condition])[|before|] == c.condition;
      assert forall i :: 0 <= i < |before| ==> (before + [c.condition])[i] == before[i];
    }
  }

  lemma ComparisonHolds(op: Operator, column: Column, value: string)
    ensures forall r: Record :: Holds(Compare(op, [column], [value]), r) <==>
      match op
      case Equal => Field(r, column) == value
      case AtLeast => !Less(Field(r, column), value)
      case Below => Less(Field(r, column), value)
  {
    forall r: Record
      ensures Fields(r, [column]) == [Field(r, column)]
      ensures RowLess(Fields(r, [column]), [value]) <==> Less(Field(r, column), value)
    {
      assert [column][1..] == [];
      assert Fields(r, [column]) == [Field(r, column)];
      assert [value][1..] == [] && [Field(r, column)][1..] == [];
      assert !RowLess([], []);
    }
  }

  lemma CursorHolds(at: string, id: string)
    ensures forall r: Record :: Holds(Compare(Below, [RecordedAt, Id], [at, id]), r)
                           <==> PairLess(r.recordedAt, r.id, at, id)
  {
    forall r: Record
      ensures RowLess(Fields(r, [RecordedAt, Id]), [at, id]) <==> PairLess(r.recordedAt, r.id, at, id)
    {
      assert [RecordedAt, Id][1..] == [Id] && [Id][1..] == [];
      assert Fields(r, [Id]) == [r.id];
      assert Fields(r, [RecordedAt, Id]) == [r.recordedAt, r.id];
      assert [r.recordedAt, r.id][1..] == [r.id] && [at, id][1..] == [id];
      assert RowLess([r.id], [id]) <==> Less(r.id, id);
    }
  }

  /** The clauses read so far, as the method has them. */
  ghost predicate Holding(clauses: seq<seq<Token>>, args: seq<Value>, read: seq<Clause>) {
    clauses == TokensOf(read) && args == ArgsOf(read) && AllRead(read)
  }

  /** One more comparison with one placeholder. */
  lemma Also(read: seq<Clause>, column: Column, op: Token, value: string) returns (more: seq<Clause>)
    requires AllRead(read) && ReadOperator(op).Some?
    ensures AllRead(more)
    ensures TokensOf(more) == TokensOf(read) + [[Name(column), op, Placeholder]]
    ensures ArgsOf(more) == ArgsOf(read) + [Str(value)]
    ensures forall r: Record :: AllHold(ConditionsOf(more), r) <==>
      AllHold(ConditionsOf(read), r) &&
      match ReadOperator(op).value
      case Equal => Field(r, column) == value
      case AtLeast => !Less(Field(r, column), value)
      case Below => Less(Field(r, column), value)
  {
    var c := Clause([Name(column), op, Placeholder], [Str(value)], Compare(ReadOperator(op).value, [column], [value]));
    ComparisonReads(column, op, value);
    ComparisonHolds(ReadOperator(op).value, column, value);
    ExtendClauses(read, c);
    AppendClause(read, c);
    more := read + [c];
  }

  /** The paging cursor, with two placeholders. */
  lemma AlsoCursor(read: seq<Clause>, at: string, id: string) returns (more: seq<Clause>)
    requires AllRead(read)
    ensures AllRead(more)
    ensures TokensOf(more) == TokensOf(read) + [CURSOR_CLAUSE]
    ensures ArgsOf(more) == ArgsOf(read) + [Str(at), Str(id)]
    ensures forall r: Record :: AllHold(ConditionsOf(more), r)
                           <==> AllHold(ConditionsOf(read), r) && PairLess(r.recordedAt, r.id, at, id)
  {
    var c := Clause(CURSOR_CLAUSE, [Str(at), Str(id)], Compare(Below, [RecordedAt, Id], [at, id]));
    CursorReads(at, id);
    CursorHolds(at, id);
    ExtendClauses(read, c);
    AppendClause(read, c);
    more := read + [c];
  }

  lemma JoinedReads(read: seq<Clause>)
    requires read != [] && AllRead(read)
    ensures PredicateReads([WHERE] + Join(TokensOf(read)), ArgsOf(read), ConditionsOf(read))
  {
    var joined := Join(TokensOf(read));
    hide ReadConjunction, Join, AllRead, ConditionsOf, ArgsOf, TokensOf;
    forall tokens: seq<Token>, left: seq<Value> | EndsPredicate(tokens)
      ensures ReadPredicate([WHERE] + joined + tokens, ArgsOf(read) + left) == Some(Read(ConditionsOf(read), tokens, left))
    {
      JoinReads(read, tokens, left);
      assert ([WHERE] + joined + tokens)[1..] == joined + tokens;
    }
  }

  /** There is one argument for each placeholder. */
  lemma CompiledBindsAll(predicate_: seq<Token>, args: seq<Value>, f: Filter)
    requires Compiles(predicate_, args, f)
    ensures Placeholders(predicate_) == |args|
  {
    var conditions :| PredicateReads(predicate_, args, conditions) && Means(conditions, f);
    assert ReadPredicate(predicate_ + [], args + []) == Some(Read(conditions, [], []));
    assert predicate_ + [] == predicate_ && args + [] == args;
    if predicate_ != [] && predicate_[0] == WHERE {
      ConjunctionBindsAll(predicate_[1..], args);
    }
  }

  lemma NothingRead()
    ensures TokensOf([]) == [] && ArgsOf([]) == [] && AllRead([])
    ensures forall r: Record :: AllHold(ConditionsOf([]), r)
    ensures PredicateReads([], [], ConditionsOf([]))
  {
    forall tokens: seq<Token>, left: seq<Value> | EndsPredicate(tokens)
      ensures ReadPredicate([] + tokens, [] + left) == Some(Read([], tokens, left))
    {
      assert [] + tokens == tokens && [] + left == left;
    }
  }

  method Where(f: Filter) returns (predicate_: seq<Token>, args: seq<Value>)
    ensures Compiles(predicate_, args, f)
    ensures Placeholders(predicate_) == |args|
  {
    var clauses: seq<seq<Token>> := [];
    args := [];
    ghost var read: seq<Clause> := [];
    hide FormatTime, Less, AllHold, ConditionsOf, ClauseReads, AllRead, Placeholders, Join, PredicateReads, ReadPredicate, TokensOf, ArgsOf;
    NothingRead();
    if f.cls != "" {
      clauses := clauses + [[Name(Class), Equals, Placeholder]];
      args := args + [Str(f.cls)];
      read := Also(read, Class, Equals, f.cls);
    }
    assert Holding(clauses, args, read);
    if f.scopeKind != "" {
      clauses := clauses + [[Name(ScopeKind), Equals, Placeholder]];
      args := args + [Str(f.scopeKind)];
      read := Also(read, ScopeKind, Equals, f.scopeKind);
    }
    assert Holding(clauses, args, read);
    if f.scopeRef != "" {
      clauses := clauses + [[Name(ScopeRef), Equals, Placeholder]];
      args := args + [Str(f.scopeRef)];
      read := Also(read, ScopeRef, Equals, f.scopeRef);
    }
    assert Holding(clauses, args, read);
    if f.since != ZERO_INSTANT {
      clauses := clauses + [[Name(RecordedAt), GreaterOrEqual, Placeholder]];
      args := args + [Str(FormatTime(f.since))];
      read := Also(read, RecordedAt, GreaterOrEqual, FormatTime(f.since));
    }
    assert Holding(clauses, args, read);
    if f.before != ZERO_INSTANT && f.beforeId != "" {
      clauses := clauses + [CURSOR_CLAUSE];
      args := args + [Str(FormatTime(f.before)), Str(f.beforeId)];
      read := AlsoCursor(read, FormatTime(f.before), f.beforeId);
    } else if f.before != ZERO_INSTANT {
      clauses := clauses + [[Name(RecordedAt), LessThan, Placeholder]];
      args := args + [Str(FormatTime(f.before))];
      read := Also(read, RecordedAt, LessThan, FormatTime(f.before));
    }
    assert Holding(clauses, args, read);
    assert Means(ConditionsOf(read), f);

    if clauses == [] {
      predicate_, args := [], [];
    } else {
      predicate_ := [WHERE] + Join(clauses);
      JoinedReads(read);
    }
    CompiledBindsAll(predicate_, args, f);
  }

  // ---------- What the three statements of a listing ask for ----------

  lemma {:induction false} SelectMeans(rows: seq<Record>, conditions: seq<Condition>, f: Filter)
    requires Means(conditions, f)
    ensures Select(rows, conditions) == Match(rows, f)
  {
    if rows != [] {
      SelectMeans(rows[1..], conditions, f);
    }
  }

  /** A statement whose head selects these items reads as its parts. */
  lemma StatementReads(
    head: seq<Token>, items: seq<Term>, predicate_: seq<Token>, tail: seq<Token>, args: seq<Value>, left: seq<Value>,
    conditions: seq<Condition>)
    requires PredicateReads(predicate_, args, conditions) && EndsPredicate(tail)
    requires |head| > 1 && head[0] == SELECT
    requires ReadTerms(head[1..] + (predicate_ + tail)) == Some((items, [FROM_OBSERVATION] + (predicate_ + tail)))
    ensures ReadQuery(head + predicate_ + tail, args + left) == ReadTail(items, conditions, tail, left)
  {
    hide ReadTerms, ReadTail, ReadPredicate;
    var sql := head + predicate_ + tail;
    Regroup(head, predicate_, tail);
    assert sql[1..] == head[1..] + (predicate_ + tail);
    assert ([FROM_OBSERVATION] + (predicate_ + tail))[1..] == predicate_ + tail;
    assert ReadPredicate(predicate_ + tail, args + left) == Some(Read(conditions, tail, left));
  }

  lemma PageReads(predicate_: seq<Token>, args: seq<Value>, conditions: seq<Condition>, limit: int)
    requires PredicateReads(predicate_, args, conditions)
    ensures ReadQuery(PAGE_HEAD + predicate_ + PAGE_TAIL, args + [Num(limit)])
         == Some(Query(ColumnTerms(ALL_COLUMNS), conditions, None, PAGE_ORDER, Some(limit)))
  {
    PageTailReads(conditions, limit);
    var rest := predicate_ + PAGE_TAIL;
    hide ReadTerms, ReadTail, ColumnTerms, Names;
    assert PAGE_HEAD[1..] + rest == Names(ALL_COLUMNS) + ([FROM_OBSERVATION] + rest);
    NamesRead(ALL_COLUMNS, [FROM_OBSERVATION] + rest);
    StatementReads(PAGE_HEAD, ColumnTerms(ALL_COLUMNS), predicate_, PAGE_TAIL, args, [Num(limit)], conditions);
  }

  lemma PageTailReads(conditions: seq<Condition>, limit: int)
    ensures ReadTail(ColumnTerms(ALL_COLUMNS), conditions, PAGE_TAIL, [Num(limit)])
         == Some(Query(ColumnTerms(ALL_COLUMNS), conditions, None, PAGE_ORDER, Some(limit)))
  {
    hide ColumnTerms;
    var tokens := PAGE_TAIL[1..];
    assert tokens[3..] == [Name(Id), DESC, LIMIT, Placeholder] && tokens[3..][2..] == [LIMIT, Placeholder];
    assert ReadSorts(tokens[3..]) == Some(([Sort(ByColumn(Id), true)], [LIMIT, Placeholder]));
    assert [Sort(ByColumn(RecordedAt), true)] + [Sort(ByColumn(Id), true)] == PAGE_ORDER;
    assert ReadSorts(tokens) == Some((PAGE_ORDER, [LIMIT, Placeholder]));
  }

  lemma CountReads(predicate_: seq<Token>, args: seq<Value>, conditions: seq<Condition>)
    requires PredicateReads(predicate_, args, conditions)
    ensures ReadQuery(COUNT_HEAD + predicate_, args) == Some(Query([ByCount], conditions, None, [], None))
  {
    assert COUNT_HEAD + predicate_ + [] == COUNT_HEAD + predicate_ && args + [] == args && predicate_ + [] == predicate_;
    assert COUNT_HEAD[1..] + predicate_ == [COUNT_ALL] + ([FROM_OBSERVATION] + predicate_);
    assert (COUNT_HEAD[1..] + predicate_)[1..] == [FROM_OBSERVATION] + predicate_;
    assert ReadTail([ByCount], conditions, [], []) == Some(Query([ByCount], conditions, None, [], None));
    hide ReadTail;
    StatementReads(COUNT_HEAD, [ByCount], predicate_, [], args, [], conditions);
  }

  lemma TallyReads(predicate_: seq<Token>, args: seq<Value>, conditions: seq<Condition>)
    requires PredicateReads(predicate_, args, conditions)
    ensures ReadQuery(TALLY_HEAD + predicate_ + TALLY_TAIL, args)
         == Some(Query(TALLY_ITEMS, conditions, Some(Class), TALLY_ORDER, None))
  {
    var rest := predicate_ + TALLY_TAIL;
    TallyTailReads(conditions);
    TallyHeadReads(rest);
    hide ReadTerms, ReadTail;
    assert args + [] == args;
    StatementReads(TALLY_HEAD, TALLY_ITEMS, predicate_, TALLY_TAIL, args, [], conditions);
  }

  lemma TallyHeadReads(rest: seq<Token>)
    ensures ReadTerms(TALLY_HEAD[1..] + rest) == Some((TALLY_ITEMS, [FROM_OBSERVATION] + rest))
  {
    var tokens := TALLY_HEAD[1..] + rest;
    assert tokens == [Name(Class), Comma] + ([COUNT_ALL] + ([FROM_OBSERVATION] + rest));
    assert tokens[2..] == [COUNT_ALL] + ([FROM_OBSERVATION] + rest);
    assert tokens[2..][1..] == [FROM_OBSERVATION] + rest;
    assert ReadTerms(tokens[2..]) == Some(([ByCount], [FROM_OBSERVATION] + rest));
    assert [ByColumn(Class)] + [ByCount] == TALLY_ITEMS;
  }

  lemma TallyTailReads(conditions: seq<Condition>)
    ensures ReadTail(TALLY_ITEMS, conditions, TALLY_TAIL, [])
         == Some(Query(TALLY_ITEMS, conditions, Some(Class), TALLY_ORDER, None))
  {
    var tokens := TALLY_TAIL[3..];
    assert TALLY_TAIL[2..][1..] == tokens;
    assert tokens[3..] == [Name(Class), ASC] && tokens[3..][2..] == [];
    assert ReadSorts(tokens[3..]) == Some(([Sort(ByColumn(Class), false)], []));
    assert [Sort(ByCount, true)] + [Sort(ByColumn(Class), false)] == TALLY_ORDER;
    assert ReadSorts(tokens) == Some((TALLY_ORDER, []));
  }

  /** The answer scans as these records, row by row. */
  ghost predicate ScansAs<T>(answer: seq<seq<Value>>, scan: seq<Value> -> Option<T>, items: seq<T>) {
    |answer| == |items| && forall i :: 0 <= i < |items| ==> scan(answer[i]) == Some(items[i])
  }

  lemma PageAnswer(rows: seq<Record>, conditions: seq<Condition>, m: seq<Record>, limit: int)
    requires Select(rows, conditions) == m
    ensures
      ScansAs(Answer(Query(ColumnTerms(ALL_COLUMNS), conditions, None, PAGE_ORDER, Some(limit)), rows), ScanRecord,
              FirstRows(Newest(m), limit))
  {
    NoCount(ALL_COLUMNS);
    hide ColumnTerms, Items, Select, Newest, ScanRecord, Sorted;
    SortedIsNewest(m);
    var page := FirstRows(Newest(m), limit);
    var answer := Answer(Query(ColumnTerms(ALL_COLUMNS), conditions, None, PAGE_ORDER, Some(limit)), rows);
    forall i | 0 <= i < |page|
      ensures i < |answer| && ScanRecord(answer[i]) == Some(page[i])
    {
      SingleAt(Newest(m), i);
      RowComesBack(page[i]);
    }
  }

  lemma {:induction false} NoCount(columns: seq<Column>)
    ensures ByCount !in ColumnTerms(columns)
  {
    if columns != [] {
      NoCount(columns[1..]);
    }
  }

  lemma CountAnswer(rows: seq<Record>, conditions: seq<Condition>, m: seq<Record>)
    requires Select(rows, conditions) == m
    ensures Answer(Query([ByCount], conditions, None, [], None), rows) == [[Num(|m|)]]
  {
    assert ByCount in [ByCount];
    assert [m][1..] == [] && [ByCount][1..] == [];
    assert Sorted([], [m]) == [m];
    assert Items([ByCount], m) == [Num(|m|)];
    assert AllItems([ByCount], [m]) == [Items([ByCount], m)];
  }

  lemma TallyAnswer(rows: seq<Record>, conditions: seq<Condition>, m: seq<Record>)
    requires Select(rows, conditions) == m
    ensures ScansAs(Answer(Query(TALLY_ITEMS, conditions, Some(Class), TALLY_ORDER, None), rows), ScanClass, Tally(m))
  {
    hide Select, Tally, Sorted, GroupBy, Items, ScanClass;
    SortedIsTally(m);
    var groups := Sorted(TALLY_ORDER, GroupBy(m, Class));
    forall i | 0 <= i < |groups|
      ensures ScanClass(Items(TALLY_ITEMS, groups[i])) == Some(Tally(m)[i])
    {
      ClassScans(groups[i]);
    }
  }

  lemma ClassScans(group: seq<Record>)
    requires group != []
    ensures ScanClass(Items(TALLY_ITEMS, group)) == Some(ClassOf(group))
  {
    assert TALLY_ITEMS[1..] == [ByCount] && [ByCount][1..] == [];
    assert Items(TALLY_ITEMS[1..], group) == [Num(|group|)];
  }

  /** Page, count and tally are those of the rows that meet the filter. */
  lemma QueriesMean(predicate_: seq<Token>, args: seq<Value>, f: Filter, rows: seq<Record>, limit: int)
    requires Compiles(predicate_, args, f)
    ensures
      var page := Execute(PAGE_HEAD + predicate_ + PAGE_TAIL, args + [Num(limit)], rows);
      page.Some? && ScansAs(page.value, ScanRecord, FirstRows(Newest(Match(rows, f)), limit))
    ensures Execute(COUNT_HEAD + predicate_, args, rows) == Some([[Num(|Match(rows, f)|)]])
    ensures
      var tally := Execute(TALLY_HEAD + predicate_ + TALLY_TAIL, args, rows);
      tally.Some? && ScansAs(tally.value, ScanClass, Tally(Match(rows, f)))
  {
    hide ReadQuery, Answer, ScansAs, PredicateReads, Tally, Newest, Select, Match, FirstRows;
    var conditions :| PredicateReads(predicate_, args, conditions) && Means(conditions, f);
    SelectMeans(rows, conditions, f);
    PageReads(predicate_, args, conditions, limit);
    PageAnswer(rows, conditions, Match(rows, f), limit);
    CountReads(predicate_, args, conditions);
    CountAnswer(rows, conditions, Match(rows, f));
    TallyReads(predicate_, args, conditions);
    TallyAnswer(rows, conditions, Match(rows, f));
  }

  // ---------- Transactions ----------

  /** A deferred read transaction: its first query pins what is committed by then. */
  class ReadTx {
    const db: Database
    var pinned: Option<seq<Record>>

    constructor (db: Database)
      ensures this.db == db && pinned == None
    {
      this.db := db;
      pinned := None;
    }

    method Snapshot() returns (rows: seq<Record>)
      modifies this
      ensures rows == (if old(pinned).Some? then old(pinned).value else db.rows)
      ensures pinned == Some(rows)
    {
      if pinned.None? {
        pinned := Some(db.rows);
      }
      rows := pinned.value;
    }
  }

  datatype StoreError =
    NoRandomness | Rejected | Faulted(fault: Fault) | NotOpened(why: ClimbError) | NoFile | NoHandle | Cancelled
    | Undecoded

  datatype Listing = Listing(page: seq<Record>, total: nat, classes: seq<ClassCount>)

  function ListingOf(rows: seq<Record>, f: Filter): Listing {
    Listing(FirstRows(Newest(Match(rows, f)), PageSize(f)), |Match(rows, f)|, Tally(Match(rows, f)))
  }

  /** What other processes commit at some moment, a fault there, or nothing. */
  datatype Moment = Quiet | Commits(rows: seq<Record>) | Fails(fault: Fault)

  method Interfere(db: Database, m: Moment)
    modifies db`rows
    ensures db.rows == old(db.rows) + if m.Commits? then m.rows else []
  {
    if m.Commits? {
      db.rows := db.rows + m.rows;
    }
  }

  /** Scans a cursor's rows one by one, up to the first that does not decode. */
  method ScanAll<T>(answer: seq<seq<Value>>, scan: seq<Value> -> Option<T>) returns (r: Option<seq<T>>)
    ensures r.Some? ==> ScansAs(answer, scan, r.value)
    ensures r.None? ==> exists i :: 0 <= i < |answer| && scan(answer[i]) == None
  {
    var items: seq<T> := [];
    for i := 0 to |answer|
      invariant |items| == i && forall k :: 0 <= k < i ==> scan(answer[k]) == Some(items[k])
    {
      var item := scan(answer[i]);
      if item.None? {
        return None;
      }
      items := items + [item.value];
    }
    return Some(items);
  }

  lemma NothingUndecoded<T>(answer: seq<seq<Value>>, scan: seq<Value> -> Option<T>, items: seq<T>)
    requires ScansAs(answer, scan, items)
    ensures forall i :: 0 <= i < |answer| ==> scan(answer[i]).Some?
  {
  }

  lemma ScansOnce<T>(answer: seq<seq<Value>>, scan: seq<Value> -> Option<T>, items: seq<T>, more: seq<T>)
    requires ScansAs(answer, scan, items) && ScansAs(answer, scan, more)
    ensures items == more
  {
    assert forall i :: 0 <= i < |items| ==> Some(items[i]) == Some(more[i]);
  }

  class Store {
    var readDB: Database?
    var writeDB: Database?

    /** Both handles are open, on one database file. */
    predicate IsOpen()
      reads this
    {
      readDB != null && readDB == writeDB
    }

    constructor ()
      ensures readDB == null && writeDB == null
    {
      readDB, writeDB := null, null;
    }

    /**
     Records an observation. The clock was read before the write lock is taken,
     so `others` may commit rows in between, and the insert may fail.
     */
    method Append(o: Observation, now: Instant, random: Option<seq<bv8>>, others: Moment) returns (r: Result<Record, StoreError>)
      requires IsOpen()
      requires random.Some? ==> |random.value| == 10
      modifies writeDB`rows
      ensures random.None? ==> r == Failure(NoRandomness)
      ensures random.Some? && others.Fails? ==> r == Failure(Faulted(others.fault))
      ensures r.Failure? && random.Some? && !others.Fails? ==> r == Failure(Rejected)
      ensures r.Success? ==>
        && random.Some? && r.value == Record(Uuid(Millis(now), random.value), FormatTime(now), o)
        && writeDB.rows == old(writeDB.rows) + (if others.Commits? then others.rows else []) + [r.value]
      ensures r.Failure? ==>
        writeDB.rows == old(writeDB.rows) + if others.Commits? && random.Some? then others.rows else []
      ensures r.Success? <==>
        && random.Some? && !others.Fails? && HasTable(writeDB.schema, OBSERVATION)
        && forall x :: x in old(writeDB.rows) + (if others.Commits? then others.rows else []) ==> x.id != Uuid(Millis(now), random.value)
    {
      hide InsertedRow, Uuid, FormatTime, Millis;
      var id := NewUuid(Millis(now), random);
      if id.Failure? {
        return Failure(NoRandomness);
      }
      var rec := Record(id.value, FormatTime(now), o);
      Interfere(writeDB, others);
      if others.Fails? {
        return Failure(Faulted(others.fault));
      }
      if !HasTable(writeDB.schema, OBSERVATION) || exists x :: x in writeDB.rows && x.id == rec.id {
        return Failure(Rejected);
      }
      InsertAddsRecord(rec);
      var row := InsertedRow(INSERT, [
        Str(rec.id), Str(rec.recordedAt), Str(o.cls), Str(o.text),
        Str(o.scopeKind), Str(o.scopeRef), Str(o.subject), Str(o.agent)]).value;
      writeDB.rows := writeDB.rows + [row];
      return Success(rec);
    }

    /**
     Lists a page, the total and the tally, while other processes commit before
     each of the three queries. All three describe what was committed at the first.
     */
    method List(f: Filter, first: Moment, second: Moment, third: Moment) returns (r: Result<Listing, StoreError>)
      requires IsOpen()
      modifies readDB`rows
      ensures r.Failure? <==> first.Fails? || second.Fails? || third.Fails?
      ensures r.Failure? ==>
        r.error == Faulted(if first.Fails? then first.fault else if second.Fails? then second.fault else third.fault)
      ensures r.Success? ==> r.value == ListingOf(old(readDB.rows) + (if first.Commits? then first.rows else []), f)
      ensures r.Success? ==>
        readDB.rows == old(readDB.rows) + (if first.Commits? then first.rows else [])
          + (if second.Commits? then second.rows else []) + (if third.Commits? then third.rows else [])
    {
      var limit := f.limit;
      if limit <= 0 {
        limit := DEFAULT_LIMIT;
      }
      hide Execute, Match, Newest, Tally, Compiles, FirstRows, ScanRecord, ScanClass, ScansAs;
      var tx := new ReadTx(readDB);
      var predicate_, args := Where(f);

      Interfere(readDB, first);
      if first.Fails? {
        return Failure(Faulted(first.fault));
      }
      var rows := tx.Snapshot();
      QueriesMean(predicate_, args, f, rows, limit);
      var found := Execute(PAGE_HEAD + predicate_ + PAGE_TAIL, args + [Num(limit)], rows).value;
      var recs := ScanAll(found, ScanRecord);
      NothingUndecoded(found, ScanRecord, FirstRows(Newest(Match(rows, f)), limit));
      if recs.None? {
        return Failure(Undecoded);
      }
      ScansOnce(found, ScanRecord, recs.value, FirstRows(Newest(Match(rows, f)), limit));

      Interfere(readDB, second);
      if second.Fails? {
        return Failure(Faulted(second.fault));
      }
      rows := tx.Snapshot();
      var total := Execute(COUNT_HEAD + predicate_, args, rows).value[0][0].n;

      Interfere(readDB, third);
      if third.Fails? {
        return Failure(Faulted(third.fault));
      }
      rows := tx.Snapshot();
      var groups := Execute(TALLY_HEAD + predicate_ + TALLY_TAIL, args, rows).value;
      var classes := ScanAll(groups, ScanClass);
      NothingUndecoded(groups, ScanClass, Tally(Match(rows, f)));
      if classes.None? {
        return Failure(Undecoded);
      }
      ScansOnce(groups, ScanClass, classes.value, Tally(Match(rows, f)));
      return Success(Listing(recs.value, total, classes.value));
    }

    /** Releases both handles; closing again does nothing. */
    method Close(readFails: bool, writeFails: bool) returns (failures: nat)
      modifies this
      ensures readDB == null && writeDB == null
      ensures failures == (if old(readDB) != null && readFails then 1 else 0) + (if old(writeDB) != null && writeFails then 1 else 0)
    {
      failures := 0;
      if readDB != null {
        if readFails {
          failures := failures + 1;
        }
        readDB := null;
      }
      if writeDB != null {
        if writeFails {
          failures := failures + 1;
        }
        writeDB := null;
      }
    }
  }

  // ---------- Opening ----------

  const INIT_ATTEMPTS := 12

  /** A database that has climbed a ladder to its recorded version and no further. */
  predicate OnLadder(db: Database, ladder: seq<Migration>)
    reads db
  {
    db.schema == Passed(ladder, db.version)
  }

  /**
   What one attempt meets: a cancelled context while waiting for it, the version
   another process has brought the store to by then, a fault on connecting, and
   faults inside the migration.
   */
  datatype Attempt = Attempt(cancelled: bool, climbedTo: Option<nat>, ping: Option<Fault>, faults: nat -> Option<Fault>)

  /** What opening came to: its answer, the attempts it took, and the version it left. */
  datatype Opening = Opening(r: Result<(), StoreError>, tried: nat, version: nat)

  /** How an opening that finds the store at `version` goes on from its k-th attempt. */
  function OpeningFrom(ladder: seq<Migration>, supported: nat, attempts: seq<Attempt>, k: nat, version: nat): Opening
    requires k <= |attempts|
    decreases |attempts| - k
  {
    if k == |attempts| then Opening(Failure(Faulted(Busy)), k, version)
    else if k > 0 && attempts[k].cancelled then Opening(Failure(Cancelled), k + 1, version)
    else
      var found := if attempts[k].climbedTo.Some? then attempts[k].climbedTo.value else version;
      match Met(attempts[k], Operations(ladder, supported, found))
      case Some(Busy) => OpeningFrom(ladder, supported, attempts, k + 1, found)
      case Some(Broken) => Opening(Failure(Faulted(Broken)), k + 1, found)
      case None =>
        if found > supported then Opening(Failure(NotOpened(NewerStore(found, supported))), k + 1, found)
        else Opening(Success(()), k + 1, supported)
  }

  /** The fault an attempt meets, connecting or within the operations of its migration. */
  function Met(attempt: Attempt, operations: nat): Option<Fault> {
    if attempt.ping.Some? then attempt.ping else FirstFault(attempt.faults, operations)
  }

  /**
   An opening makes at most as many attempts as it may, and another one only
   when the operations of the one before met "busy". It succeeds only at its own
   version, refuses only a newer store, is cancelled only while waiting, and
   reports "busy" only after every attempt was.
   */
  lemma {:induction false} OpeningEnds(ladder: seq<Migration>, supported: nat, attempts: seq<Attempt>, k: nat, version: nat)
    requires k <= |attempts|
    ensures
      var o := OpeningFrom(ladder, supported, attempts, k, version);
      && k <= o.tried <= |attempts|
      && (o.r.Success? ==> o.version == supported)
      && (o.r.Failure? && o.r.error.NotOpened? ==> o.r.error.why == NewerStore(o.version, supported) && o.version > supported)
      && (o.r == Failure(Cancelled) ==> o.tried > 1 && attempts[o.tried - 1].cancelled)
      && (o.r == Failure(Faulted(Busy)) ==>
            o.tried == |attempts|
            && forall i :: k <= i < |attempts| ==> MeetsBusy(ladder, supported, attempts, k, version, i))
      && (forall i :: k <= i < o.tried - 1 ==> MeetsBusy(ladder, supported, attempts, k, version, i))
    decreases |attempts| - k
  {
    if k < |attempts| && !(k > 0 && attempts[k].cancelled) {
      var found := if attempts[k].climbedTo.Some? then attempts[k].climbedTo.value else version;
      if Met(attempts[k], Operations(ladder, supported, found)) == Some(Busy) {
        assert MeetsBusy(ladder, supported, attempts, k, version, k);
        OpeningEnds(ladder, supported, attempts, k + 1, found);
        forall i | k < i < |attempts|
          ensures MeetsBusy(ladder, supported, attempts, k, version, i)
             <==> MeetsBusy(ladder, supported, attempts, k + 1, found, i)
        {
          FoundLater(attempts, k, version, i);
        }
      }
    }
  }

  /** The version the i-th attempt finds, when the k-th sets out from `version` and none in between commits. */
  function Found(attempts: seq<Attempt>, k: nat, version: nat, i: nat): nat
    requires k <= i < |attempts|
    decreases i
  {
    if attempts[i].climbedTo.Some? then attempts[i].climbedTo.value
    else if i == k then version
    else Found(attempts, k, version, i - 1)
  }

  lemma {:induction false} FoundLater(attempts: seq<Attempt>, k: nat, version: nat, i: nat)
    requires k < i < |attempts|
    ensures Found(attempts, k, version, i) == Found(attempts, k + 1, Found(attempts, k, version, k), i)
    decreases i
  {
    if i > k + 1 {
      FoundLater(attempts, k, version, i - 1);
    }
  }

  /** The operations the i-th attempt makes meet "busy" before any other fault. */
  predicate MeetsBusy(ladder: seq<Migration>, supported: nat, attempts: seq<Attempt>, k: nat, version: nat, i: nat)
    requires k <= i < |attempts|
  {
    Met(attempts[i], Operations(ladder, supported, Found(attempts, k, version, i))) == Some(Busy)
  }

  /** After this attempt there is another one: it was not given up while waiting, and it met "busy". */
  predicate GoesOn(ladder: seq<Migration>, supported: nat, attempts: seq<Attempt>, k: nat, version: nat, i: nat)
    requires k <= i < |attempts|
  {
    !(i > 0 && attempts[i].cancelled) && MeetsBusy(ladder, supported, attempts, k, version, i)
  }

  /**
   The first attempt after which there is no other decides. Given up while
   waiting, the opening is cancelled; otherwise a broken storage is reported as
   such, a newer store is refused, and anything else succeeds.
   */
  lemma {:induction false} OpeningDecides(
    ladder: seq<Migration>, supported: nat, attempts: seq<Attempt>, k: nat, version: nat, i: nat)
    requires k <= i < |attempts|
    requires forall j :: k <= j < i ==> GoesOn(ladder, supported, attempts, k, version, j)
    requires !GoesOn(ladder, supported, attempts, k, version, i)
    ensures
      var o := OpeningFrom(ladder, supported, attempts, k, version);
      var found := Found(attempts, k, version, i);
      var fault := Met(attempts[i], Operations(ladder, supported, found));
      && o.tried == i + 1
      && (if i > 0 && attempts[i].cancelled then
            o.r == Failure(Cancelled) && o.version == (if i == k then version else Found(attempts, k, version, i - 1))
          else if fault == Some(Broken) then
            o.r == Failure(Faulted(Broken)) && o.version == found
          else if found > supported then
            o.r == Failure(NotOpened(NewerStore(found, supported))) && o.version == found
          else
            fault == None && o.r == Success(()) && o.version == supported)
    decreases i - k
  {
    if k < i {
      var found, next := Found(attempts, k, version, k), k + 1;
      assert GoesOn(ladder, supported, attempts, k, version, k);
      forall j | k < j <= i
        ensures Found(attempts, k, version, j) == Found(attempts, next, found, j)
      {
        FoundLater(attempts, k, version, j);
      }
      forall j | k < j < i
        ensures GoesOn(ladder, supported, attempts, next, found, j)
      {
        assert GoesOn(ladder, supported, attempts, k, version, j);
      }
      OpeningDecides(ladder, supported, attempts, next, found, i);
    }
  }

  /** When every attempt meets "busy" and none is given up, that is the answer. */
  lemma {:induction false} OpeningStaysBusy(
    ladder: seq<Migration>, supported: nat, attempts: seq<Attempt>, k: nat, version: nat)
    requires k <= |attempts|
    requires forall j :: k <= j < |attempts| ==> GoesOn(ladder, supported, attempts, k, version, j)
    ensures
      var o := OpeningFrom(ladder, supported, attempts, k, version);
      o.r == Failure(Faulted(Busy)) && o.tried == |attempts|
    decreases |attempts| - k
  {
    if k < |attempts| {
      var found, next := Found(attempts, k, version, k), k + 1;
      assert GoesOn(ladder, supported, attempts, k, version, k);
      forall j | k < j < |attempts|
        ensures GoesOn(ladder, supported, attempts, next, found, j)
      {
        FoundLater(attempts, k, version, j);
        assert GoesOn(ladder, supported, attempts, k, version, j);
      }
      OpeningStaysBusy(ladder, supported, attempts, next, found);
    }
  }

  /** The attempt that decides, if one does. */
  lemma {:induction false} FirstToStop(ladder: seq<Migration>, supported: nat, attempts: seq<Attempt>, version: nat, n: nat)
    returns (i: nat)
    requires n <= |attempts|
    ensures i <= n && forall j :: 0 <= j < i ==> GoesOn(ladder, supported, attempts, 0, version, j)
    ensures i < n ==> !GoesOn(ladder, supported, attempts, 0, version, i)
  {
    i := 0;
    if n > 0 {
      i := FirstToStop(ladder, supported, attempts, version, n - 1);
      if i == n - 1 && GoesOn(ladder, supported, attempts, 0, version, i) {
        i := n;
      }
    }
  }

  /** The i-th attempt is made, is not given up, meets no fault and finds no newer store. */
  ghost predicate GoesWell(ladder: seq<Migration>, supported: nat, attempts: seq<Attempt>, version: nat, i: nat) {
    && i < |attempts|
    && (forall j :: 0 <= j < i ==> GoesOn(ladder, supported, attempts, 0, version, j))
    && !(i > 0 && attempts[i].cancelled)
    && Found(attempts, 0, version, i) <= supported
    && Met(attempts[i], Operations(ladder, supported, Found(attempts, 0, version, i))) == None
  }

  /** An opening succeeds if and only if some attempt is reached that goes well. */
  lemma OpeningSucceedsExactly(ladder: seq<Migration>, supported: nat, attempts: seq<Attempt>, version: nat)
    ensures OpeningFrom(ladder, supported, attempts, 0, version).r.Success? <==>
      exists i :: GoesWell(ladder, supported, attempts, version, i)
  {
    hide OpeningFrom, Found, Met, Operations;
    var i := FirstToStop(ladder, supported, attempts, version, |attempts|);
    if i == |attempts| {
      OpeningStaysBusy(ladder, supported, attempts, 0, version);
    } else {
      OpeningDecides(ladder, supported, attempts, 0, version, i);
    }
    if o: nat :| GoesWell(ladder, supported, attempts, version, o) {
      assert !GoesOn(ladder, supported, attempts, 0, version, o);
      OpeningDecides(ladder, supported, attempts, 0, version, o);
    } else if i < |attempts| && OpeningFrom(ladder, supported, attempts, 0, version).r.Success? {
      assert GoesWell(ladder, supported, attempts, version, i);
    }
  }

  /** With the shipped ladder and no fault, opening a new store and opening it again both succeed at once. */
  lemma ShippedOpens(attempts: seq<Attempt>, version: nat)
    requires |attempts| > 0 && version <= 1
    requires attempts[0].climbedTo == None && attempts[0].ping == None
    requires forall k :: 0 <= k < 10 ==> attempts[0].faults(k) == None
    ensures OpeningFrom(LADDER, SCHEMA_VERSION, attempts, 0, version) == Opening(Success(()), 1, 1)
  {
    ShippedOperations();
    var n := Operations(LADDER, SCHEMA_VERSION, version);
    FirstFaultMeans(attempts[0].faults, n);
    hide Operations, FirstFault;
  }

  /**
   Connects and migrates, again and again while the answer is "busy". The store
   stays on its ladder whatever happens.
   */
  method Initialize(db: Database, ladder: seq<Migration>, supported: nat, attempts: seq<Attempt>)
    returns (r: Result<(), StoreError>, tried: nat)
    requires IsLadder(ladder, supported) && OnLadder(db, ladder)
    requires |attempts| == INIT_ATTEMPTS
    modifies db`version, db`schema
    ensures OnLadder(db, ladder)
    ensures Opening(r, tried, db.version) == OpeningFrom(ladder, supported, attempts, 0, old(db.version))
    ensures 1 <= tried <= 12 && (r == Failure(Faulted(Busy)) ==> tried == 12)
  {
    OpeningEnds(ladder, supported, attempts, 0, db.version);
    tried := 0;
    while tried < INIT_ATTEMPTS
      invariant tried <= INIT_ATTEMPTS
      invariant OnLadder(db, ladder)
      invariant OpeningFrom(ladder, supported, attempts, 0, old(db.version))
             == OpeningFrom(ladder, supported, attempts, tried, db.version)
    {
      var attempt := attempts[tried];
      tried := tried + 1;
      if tried > 1 && attempt.cancelled {
        return Failure(Cancelled), tried;
      }
      if attempt.climbedTo.Some? {
        db.version, db.schema := attempt.climbedTo.value, Passed(ladder, attempt.climbedTo.value);
      }
      if attempt.ping.Some? {
        if attempt.ping.value == Busy {
          continue;
        }
        return Failure(Faulted(attempt.ping.value)), tried;
      }
      if db.version <= supported {
        ClimbReachesTop(ladder, supported, db.version);
      }
      var m := Migrate(db, ladder, supported, attempt.faults);
      match m {
        case Success(_) =>
          return Success(()), tried;
        case Failure(Storage(Busy)) =>
        case Failure(Storage(Broken)) =>
          return Failure(Faulted(Broken)), tried;
        case Failure(why) =>
          return Failure(NotOpened(why)), tried;
      }
    }
    return Failure(Faulted(Busy)), tried;
  }

  /** What happens when the file is created exclusively. */
  datatype Creation = Created(closes: bool) | Exists | NotCreated

  /** Which of the two handles can be opened, and which fail to close. */
  datatype Handles = Handles(writeOpens: bool, readOpens: bool, readFails: bool, writeFails: bool)

  /** Why opening failed, and how many of the handles opened so far could not be closed again. */
  datatype OpenError = OpenError(why: StoreError, unclosed: nat)

  /** How many handles fail to close when both are open. */
  function Unclosed(h: Handles): nat {
    (if h.readFails then 1 else 0) + (if h.writeFails then 1 else 0)
  }

  /** Opens the store on a database file; on failure whatever was opened is closed, and errors of that are joined. */
  method OpenStore(
    directory: bool, creation: Creation, handles: Handles, db: Database, ladder: seq<Migration>, supported: nat,
    attempts: seq<Attempt>)
    returns (r: Result<Store, OpenError>)
    requires IsLadder(ladder, supported) && OnLadder(db, ladder)
    requires |attempts| == INIT_ATTEMPTS
    modifies db`version, db`schema
    ensures OnLadder(db, ladder)
    ensures r.Success? ==> fresh(r.value) && r.value.IsOpen() && r.value.writeDB == db
    ensures
      var o := OpeningFrom(ladder, supported, attempts, 0, old(db.version));
      if !directory || creation == NotCreated || creation == Created(false) then
        r == Failure(OpenError(NoFile, 0)) && db.version == old(db.version)
      else if !handles.writeOpens then
        r == Failure(OpenError(NoHandle, 0)) && db.version == old(db.version)
      else if !handles.readOpens then
        r == Failure(OpenError(NoHandle, if handles.writeFails then 1 else 0)) && db.version == old(db.version)
      else
        && db.version == o.version && (r.Success? <==> o.r.Success?)
        && (r.Failure? ==> r.error == OpenError(o.r.error, Unclosed(handles)))
  {
    if !directory || creation == NotCreated || creation == Created(false) {
      return Failure(OpenError(NoFile, 0));
    }
    var st := new Store();
    if !handles.writeOpens {
      var unclosed := st.Close(handles.readFails, handles.writeFails);
      return Failure(OpenError(NoHandle, unclosed));
    }
    st.writeDB := db;
    if !handles.readOpens {
      var unclosed := st.Close(handles.readFails, handles.writeFails);
      return Failure(OpenError(NoHandle, unclosed));
    }
    st.readDB := db;
    var initialized, _ := Initialize(db, ladder, supported, attempts);
    if initialized.Failure? {
      var unclosed := st.Close(handles.readFails, handles.writeFails);
      return Failure(OpenError(initialized.error, unclosed));
    }
    return Success(st);
  }

  // ---------- What a listing says ----------

  /**
   A listing describes one set of rows: the page is the first rows of the whole
   match, newest first, and is all of it exactly when the page is as long as
   the total; the tally is exact and adds up to the total.
   */
  lemma ListingIsConsistent(rows: seq<Record>, f: Filter)
    requires UniqueIds(rows)
    ensures
      var l, m := ListingOf(rows, f), Match(rows, f);
      && NewestFirst(Newest(m)) && multiset(Newest(m)) == multiset(m)
      && l.page <= Newest(m) && |l.page| == (if PageSize(f) < l.total then PageSize(f) else l.total)
      && (l.total > |l.page| <==> exists r :: r in rows && Matches(f, r) && r !in l.page)
      && IsTally(m, l.classes) && Sum(l.classes) == l.total
  {
    var l, m := ListingOf(rows, f), Match(rows, f);
    MatchUnique(rows, f);
    NewestIsOrdered(m);
    NewestMembers(m);
    TallyIsExact(m);
    var sorted, n := Newest(m), |l.page|;
    if l.total > n {
      var r := sorted[n];
      NewestHas(m, r);
      MatchMembers(rows, f, r);
      PairLessIsTotal(r.recordedAt, r.id, r.recordedAt, r.id);
      BelowLastOfPage(sorted, n + 1, r);
      forall i | 0 <= i < n
        ensures l.page[i] != r
      {
        assert KeyLess(sorted[n], sorted[i]);
      }
    } else {
      forall r | r in rows && Matches(f, r)
        ensures r in l.page
      {
        MatchMembers(rows, f, r);
        NewestHas(m, r);
        assert l.page == sorted;
      }
    }
  }
}
