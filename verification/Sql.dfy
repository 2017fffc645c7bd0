/**
 The part of SQL the store speaks, as token sequences, with SQLite's meaning:
 BINARY collation, row-value comparison, and `?` placeholders that take the
 arguments from left to right.
 */
module Sql {
  import opened Wrappers
  import opened Sequences
  import opened Collation
  import opened Observations

  datatype Column = Id | RecordedAt | Class | Text | ScopeKind | ScopeRef | Subject | Agent

  datatype Token =
    | SELECT | FROM_OBSERVATION | WHERE | AND | ORDER_BY | GROUP_BY | LIMIT | DESC | ASC | COUNT_ALL
    | INSERT_INTO_OBSERVATION | VALUES
    | Name(column: Column) | Equals | GreaterOrEqual | LessThan | Open | Close | Comma | Placeholder

  datatype Value = Str(s: string) | Num(n: int)

  // ---------- Predicates ----------

  datatype Operator = Equal | AtLeast | Below

  /** A comparison of columns with bound values; more than one column makes a row value. */
  datatype Condition = Compare(op: Operator, columns: seq<Column>, values: seq<string>)

  function Field(r: Record, c: Column): string {
    match c
    case Id => r.id
    case RecordedAt => r.recordedAt
    case Class => r.obs.cls
    case Text => r.obs.text
    case ScopeKind => r.obs.scopeKind
    case ScopeRef => r.obs.scopeRef
    case Subject => r.obs.subject
    case Agent => r.obs.agent
  }

  function Fields(r: Record, columns: seq<Column>): (v: seq<string>)
    ensures |v| == |columns|
  {
    if columns == [] then [] else [Field(r, columns[0])] + Fields(r, columns[1..])
  }

  /** Row values compare by their first differing component. */
  predicate RowLess(a: seq<string>, b: seq<string>)
    requires |a| == |b|
  {
    a != [] && (Less(a[0], b[0]) || (a[0] == b[0] && RowLess(a[1..], b[1..])))
  }

  predicate Holds(c: Condition, r: Record) {
    |c.columns| == |c.values| &&
    match c.op
    case Equal => Fields(r, c.columns) == c.values
    case AtLeast => !RowLess(Fields(r, c.columns), c.values)
    case Below => RowLess(Fields(r, c.columns), c.values)
  }

  predicate AllHold(conditions: seq<Condition>, r: Record) {
    forall i :: 0 <= i < |conditions| ==> Holds(conditions[i], r)
  }

  // ---------- Reading a statement ----------

  /** Something read, with the tokens and arguments that are left. */
  datatype Read<T> = Read(item: T, tokens: seq<Token>, args: seq<Value>)

  function ReadOperator(t: Token): Option<Operator> {
    match t
    case Equals => Some(Equal)
    case GreaterOrEqual => Some(AtLeast)
    case LessThan => Some(Below)
    case _ => None
  }

  /** `column op ?` or `(column, column) op (?, ?)`. */
  function ReadComparison(tokens: seq<Token>, args: seq<Value>): (r: Option<Read<Condition>>)
    ensures r.Some? ==> |r.value.tokens| < |tokens|
  {
    if |tokens| >= 3 && tokens[0].Name? && ReadOperator(tokens[1]).Some? && tokens[2] == Placeholder then
      if |args| >= 1 && args[0].Str?
      then Some(Read(Compare(ReadOperator(tokens[1]).value, [tokens[0].column], [args[0].s]), tokens[3..], args[1..]))
      else None
    else if && |tokens| >= 11
            && tokens[0] == Open && tokens[1].Name? && tokens[2] == Comma && tokens[3].Name? && tokens[4] == Close
            && ReadOperator(tokens[5]).Some?
            && tokens[6] == Open && tokens[7] == Placeholder && tokens[8] == Comma && tokens[9] == Placeholder
            && tokens[10] == Close then
      if |args| >= 2 && args[0].Str? && args[1].Str?
      then Some(Read(Compare(ReadOperator(tokens[5]).value, [tokens[1].column, tokens[3].column], [args[0].s, args[1].s]),
                     tokens[11..], args[2..]))
      else None
    else None
  }

  function ReadConjunction(tokens: seq<Token>, args: seq<Value>): Option<Read<seq<Condition>>>
    decreases |tokens|
  {
    match ReadComparison(tokens, args)
    case None => None
    case Some(Read(first, tokens', args')) =>
      if tokens' != [] && tokens'[0] == AND then
        match ReadConjunction(tokens'[1..], args')
        case None => None
        case Some(Read(rest, tokens'', args'')) => Some(Read([first] + rest, tokens'', args''))
      else Some(Read([first], tokens', args'))
  }

  function ReadPredicate(tokens: seq<Token>, args: seq<Value>): Option<Read<seq<Condition>>> {
    if tokens != [] && tokens[0] == WHERE then ReadConjunction(tokens[1..], args) else Some(Read([], tokens, args))
  }

  // ---------- Queries ----------

  /** What can be selected and sorted by: a column, or the number of rows of a group. */
  datatype Term = ByColumn(column: Column) | ByCount

  datatype Sort = Sort(term: Term, descending: bool)

  /** A query as it was read, with its arguments in place. */
  datatype Query = Query(
    items: seq<Term>, conditions: seq<Condition>, group: Option<Column>, order: seq<Sort>, limit: Option<int>)

  function ReadTerm(t: Token): Option<Term> {
    match t
    case Name(c) => Some(ByColumn(c))
    case COUNT_ALL => Some(ByCount)
    case _ => None
  }

  /** Terms with commas between them. */
  function ReadTerms(tokens: seq<Token>): Option<(seq<Term>, seq<Token>)>
    decreases |tokens|
  {
    if tokens == [] || ReadTerm(tokens[0]).None? then None
    else if |tokens| >= 2 && tokens[1] == Comma then
      match ReadTerms(tokens[2..])
      case None => None
      case Some((terms, rest)) => Some(([ReadTerm(tokens[0]).value] + terms, rest))
    else Some(([ReadTerm(tokens[0]).value], tokens[1..]))
  }

  /** Terms with a direction each and commas between them. */
  function ReadSorts(tokens: seq<Token>): Option<(seq<Sort>, seq<Token>)>
    decreases |tokens|
  {
    if |tokens| < 2 || ReadTerm(tokens[0]).None? || !(tokens[1] == DESC || tokens[1] == ASC) then None
    else
      var sort := Sort(ReadTerm(tokens[0]).value, tokens[1] == DESC);
      if |tokens| >= 3 && tokens[2] == Comma then
        match ReadSorts(tokens[3..])
        case None => None
        case Some((sorts, rest)) => Some(([sort] + sorts, rest))
      else Some(([sort], tokens[2..]))
  }

  /** What may follow the predicate: GROUP BY, ORDER BY and LIMIT, the last taking an argument. Nothing may be left. */
  function ReadTail(items: seq<Term>, conditions: seq<Condition>, tokens: seq<Token>, args: seq<Value>): Option<Query> {
    if |tokens| >= 2 && tokens[0] == GROUP_BY && tokens[1].Name?
    then ReadOrder(Query(items, conditions, Some(tokens[1].column), [], None), tokens[2..], args)
    else ReadOrder(Query(items, conditions, None, [], None), tokens, args)
  }

  function ReadOrder(q: Query, tokens: seq<Token>, args: seq<Value>): Option<Query> {
    if tokens != [] && tokens[0] == ORDER_BY then
      match ReadSorts(tokens[1..])
      case None => None
      case Some((sorts, rest)) => ReadLimit(q.(order := sorts), rest, args)
    else ReadLimit(q, tokens, args)
  }

  function ReadLimit(q: Query, tokens: seq<Token>, args: seq<Value>): Option<Query> {
    if tokens == [] && args == [] then Some(q)
    else if tokens == [LIMIT, Placeholder] && |args| == 1 && args[0].Num? then Some(q.(limit := Some(args[0].n)))
    else None
  }

  function ReadQuery(tokens: seq<Token>, args: seq<Value>): Option<Query> {
    if tokens == [] || tokens[0] != SELECT then None
    else match ReadTerms(tokens[1..])
      case None => None
      case Some((items, rest)) =>
        if rest == [] || rest[0] != FROM_OBSERVATION then None
        else match ReadPredicate(rest[1..], args)
          case None => None
          case Some(Read(conditions, tail, left)) => ReadTail(items, conditions, tail, left)
  }

  // ---------- What a query answers ----------

  function Select(rows: seq<Record>, conditions: seq<Condition>): seq<Record> {
    if rows == [] then []
    else if AllHold(conditions, rows[0]) then [rows[0]] + Select(rows[1..], conditions)
    else Select(rows[1..], conditions)
  }

  /** Each row on its own, as a query without grouping sees it. */
  function Singles(rows: seq<Record>): (groups: seq<seq<Record>>)
    ensures |groups| == |rows|
  {
    if rows == [] then [] else [[rows[0]]] + Singles(rows[1..])
  }

  /** The row with its group, or as a new one. */
  function JoinGroup(groups: seq<seq<Record>>, r: Record, c: Column): seq<seq<Record>> {
    if groups == [] then [[r]]
    else if groups[0] != [] && Field(groups[0][0], c) == Field(r, c) then [[r] + groups[0]] + groups[1..]
    else [groups[0]] + JoinGroup(groups[1..], r, c)
  }

  function GroupBy(rows: seq<Record>, c: Column): seq<seq<Record>> {
    if rows == [] then [] else JoinGroup(GroupBy(rows[1..], c), rows[0], c)
  }

  /** An aggregate without GROUP BY makes one group of everything. */
  function GroupsOf(q: Query, rows: seq<Record>): seq<seq<Record>> {
    match q.group
    case Some(c) => GroupBy(rows, c)
    case None => if ByCount in q.items then [rows] else Singles(rows)
  }

  function TermOf(t: Term, group: seq<Record>): Value {
    match t
    case ByCount => Num(|group|)
    case ByColumn(c) => Str(if group == [] then "" else Field(group[0], c))
  }

  predicate ValueLess(a: Value, b: Value) {
    match (a, b)
    case (Str(s), Str(t)) => Less(s, t)
    case (Num(m), Num(n)) => m < n
    case _ => false
  }

  predicate Precedes(order: seq<Sort>, g: seq<Record>, h: seq<Record>) {
    order != [] &&
    var a, b := TermOf(order[0].term, g), TermOf(order[0].term, h);
    || (if order[0].descending then ValueLess(b, a) else ValueLess(a, b))
    || (a == b && Precedes(order[1..], g, h))
  }

  function InsertSorted(order: seq<Sort>, g: seq<Record>, groups: seq<seq<Record>>): seq<seq<Record>> {
    if groups == [] then [g]
    else if Precedes(order, g, groups[0]) then [g] + groups
    else [groups[0]] + InsertSorted(order, g, groups[1..])
  }

  function Sorted(order: seq<Sort>, groups: seq<seq<Record>>): seq<seq<Record>> {
    if groups == [] then [] else InsertSorted(order, groups[0], Sorted(order, groups[1..]))
  }

  /** LIMIT n; a negative limit is no limit. */
  function FirstRows<T>(rows: seq<T>, n: int): seq<T> {
    if 0 <= n <= |rows| then rows[..n] else rows
  }

  function Limited<T>(rows: seq<T>, limit: Option<int>): seq<T> {
    match limit
    case None => rows
    case Some(n) => FirstRows(rows, n)
  }

  function Items(terms: seq<Term>, group: seq<Record>): seq<Value> {
    if terms == [] then [] else [TermOf(terms[0], group)] + Items(terms[1..], group)
  }

  function AllItems(terms: seq<Term>, groups: seq<seq<Record>>): (rows: seq<seq<Value>>)
    ensures |rows| == |groups| && forall i :: 0 <= i < |groups| ==> rows[i] == Items(terms, groups[i])
  {
    if groups == [] then [] else [Items(terms, groups[0])] + AllItems(terms, groups[1..])
  }

  function Answer(q: Query, rows: seq<Record>): seq<seq<Value>> {
    AllItems(q.items, Limited(Sorted(q.order, GroupsOf(q, Select(rows, q.conditions))), q.limit))
  }

  /** What the database answers to a query with its arguments; None for one it cannot read. */
  function Execute(sql: seq<Token>, args: seq<Value>, rows: seq<Record>): Option<seq<seq<Value>>> {
    match ReadQuery(sql, args)
    case None => None
    case Some(q) => Some(Answer(q, rows))
  }

  // ---------- Insertion ----------

  /** Column names with commas between them. */
  function Names(columns: seq<Column>): seq<Token> {
    if columns == [] then []
    else if |columns| == 1 then [Name(columns[0])]
    else [Name(columns[0]), Comma] + Names(columns[1..])
  }

  function Marks(n: nat): seq<Token> {
    if n == 0 then [] else if n == 1 then [Placeholder] else [Placeholder, Comma] + Marks(n - 1)
  }

  /** The value bound for a column: that of the first name that matches. */
  function BoundTo(columns: seq<Column>, args: seq<Value>, c: Column): Option<string>
    requires |columns| == |args|
  {
    if columns == [] then None
    else if columns[0] == c then (if args[0].Str? then Some(args[0].s) else None)
    else BoundTo(columns[1..], args[1..], c)
  }

  function ColumnsOf(terms: seq<Term>): Option<seq<Column>> {
    if terms == [] then Some([])
    else match (terms[0], ColumnsOf(terms[1..]))
      case (ByColumn(c), Some(more)) => Some([c] + more)
      case _ => None
  }

  /** The row an INSERT with these arguments describes: every column of the table must be given as text. */
  function InsertedRow(sql: seq<Token>, args: seq<Value>): Option<Record> {
    if |sql| < 2 || sql[0] != INSERT_INTO_OBSERVATION || sql[1] != Open then None
    else match ReadTerms(sql[2..])
      case None => None
      case Some((terms, rest)) =>
        match ColumnsOf(terms)
        case None => None
        case Some(columns) =>
          if |columns| != |args| || rest != [Close, VALUES, Open] + Marks(|args|) + [Close] then None
          else match (BoundTo(columns, args, Id), BoundTo(columns, args, RecordedAt), BoundTo(columns, args, Class),
                      BoundTo(columns, args, Text))
            case (Some(id), Some(at), Some(cls), Some(text)) =>
              (match (BoundTo(columns, args, ScopeKind), BoundTo(columns, args, ScopeRef), BoundTo(columns, args, Subject),
                      BoundTo(columns, args, Agent))
               case (Some(kind), Some(ref), Some(subject), Some(agent)) =>
                 Some(Record(id, at, Observation(cls, text, kind, ref, subject, agent)))
               case _ => None)
            case _ => None
  }

  // ---------- Joined clauses read back ----------

  /** strings.Join with " AND ". */
  function Join(clauses: seq<seq<Token>>): seq<Token> {
    if clauses == [] then []
    else if |clauses| == 1 then clauses[0]
    else clauses[0] + [AND] + Join(clauses[1..])
  }

  /** The clause reads as the condition, taking exactly these arguments, whatever follows. */
  ghost predicate ClauseReads(clause: seq<Token>, args: seq<Value>, c: Condition) {
    forall tokens: seq<Token>, left: seq<Value> {:trigger ReadComparison(clause + tokens, args + left)} ::
      ReadComparison(clause + tokens, args + left) == Some(Read(c, tokens, left))
  }

  /** A clause, the arguments it takes and the condition it reads as. */
  datatype Clause = Clause(tokens: seq<Token>, args: seq<Value>, condition: Condition)

  ghost predicate AllRead(clauses: seq<Clause>) {
    forall c :: c in clauses ==> ClauseReads(c.tokens, c.args, c.condition)
  }

  function TokensOf(clauses: seq<Clause>): seq<seq<Token>> {
    if clauses == [] then [] else [clauses[0].tokens] + TokensOf(clauses[1..])
  }

  function ArgsOf(clauses: seq<Clause>): seq<Value> {
    if clauses == [] then [] else clauses[0].args + ArgsOf(clauses[1..])
  }

  function ConditionsOf(clauses: seq<Clause>): seq<Condition> {
    if clauses == [] then [] else [clauses[0].condition] + ConditionsOf(clauses[1..])
  }

  lemma {:induction false} AppendClause(clauses: seq<Clause>, c: Clause)
    ensures TokensOf(clauses + [c]) == TokensOf(clauses) + [c.tokens]
    ensures ArgsOf(clauses + [c]) == ArgsOf(clauses) + c.args
    ensures ConditionsOf(clauses + [c]) == ConditionsOf(clauses) + [c.condition]
  {
    if clauses == [] {
      assert clauses + [c] == [c] && [c][1..] == [];
    } else {
      var first, rest := clauses[0], clauses[1..];
      assert (clauses + [c])[1..] == rest + [c] && (clauses + [c])[0] == first;
      AppendClause(rest, c);
      Regroup([first.tokens], TokensOf(rest), [c.tokens]);
      Regroup(first.args, ArgsOf(rest), c.args);
      Regroup([first.condition], ConditionsOf(rest), [c.condition]);
    }
  }

  lemma ComparisonReads(column: Column, op: Token, value: string)
    requires ReadOperator(op).Some?
    ensures ClauseReads([Name(column), op, Placeholder], [Str(value)], Compare(ReadOperator(op).value, [column], [value]))
  {
    var clause, args := [Name(column), op, Placeholder], [Str(value)];
    forall tokens: seq<Token>, left: seq<Value>
      ensures ReadComparison(clause + tokens, args + left)
           == Some(Read(Compare(ReadOperator(op).value, [column], [value]), tokens, left))
    {
      assert (clause + tokens)[3..] == tokens && (args + left)[1..] == left;
    }
  }

  const CURSOR_CLAUSE: seq<Token> :=
    [Open, Name(RecordedAt), Comma, Name(Id), Close, LessThan, Open, Placeholder, Comma, Placeholder, Close]

  lemma CursorReads(at: string, id: string)
    ensures ClauseReads(CURSOR_CLAUSE, [Str(at), Str(id)], Compare(Below, [RecordedAt, Id], [at, id]))
  {
    var args := [Str(at), Str(id)];
    forall tokens: seq<Token>, left: seq<Value>
      ensures ReadComparison(CURSOR_CLAUSE + tokens, args + left)
           == Some(Read(Compare(Below, [RecordedAt, Id], [at, id]), tokens, left))
    {
      assert (CURSOR_CLAUSE + tokens)[11..] == tokens && (args + left)[2..] == left;
    }
  }

  /** Clauses joined by AND read back as their conditions; what follows them is left over. */
  lemma {:induction false} JoinReads(clauses: seq<Clause>, tokens: seq<Token>, left: seq<Value>)
    requires clauses != [] && AllRead(clauses)
    requires tokens != [] ==> tokens[0] != AND
    ensures ReadConjunction(Join(TokensOf(clauses)) + tokens, ArgsOf(clauses) + left)
         == Some(Read(ConditionsOf(clauses), tokens, left))
  {
    var first, rest := clauses[0], clauses[1..];
    hide ReadConjunction, ReadComparison, ClauseReads;
    if rest == [] {
      hide *;
      OneClause(clauses);
      ClauseThen(first.tokens, first.args, first.condition, tokens, left);
    } else {
      var after := [AND] + (Join(TokensOf(rest)) + tokens);
      JoinSplits(clauses, tokens, left);
      hide TokensOf, ArgsOf, Join;
      ClauseThen(first.tokens, first.args, first.condition, after, ArgsOf(rest) + left);
      assert after[1..] == Join(TokensOf(rest)) + tokens;
      JoinReads(rest, tokens, left);
    }
  }

  lemma JoinSplits(clauses: seq<Clause>, tokens: seq<Token>, left: seq<Value>)
    requires |clauses| > 1
    ensures
      var first, rest := clauses[0], clauses[1..];
      && Join(TokensOf(clauses)) + tokens == first.tokens + ([AND] + (Join(TokensOf(rest)) + tokens))
      && ArgsOf(clauses) + left == first.args + (ArgsOf(rest) + left)
      && ConditionsOf(clauses) == [first.condition] + ConditionsOf(rest)
  {
    var first, rest := clauses[0], clauses[1..];
    var joined, args := Join(TokensOf(rest)), ArgsOf(rest);
    assert TokensOf(clauses) == [first.tokens] + TokensOf(rest) && ArgsOf(clauses) == first.args + args;
    assert |TokensOf(rest)| > 0;
    assert Join([first.tokens] + TokensOf(rest)) == first.tokens + [AND] + joined by {
      assert ([first.tokens] + TokensOf(rest))[1..] == TokensOf(rest);
    }
    hide *;
    Regroup(first.tokens, [AND], joined);
    Regroup(first.tokens, [AND] + joined, tokens);
    Regroup([AND], joined, tokens);
    Regroup(first.args, args, left);
  }

  lemma OneClause(clauses: seq<Clause>)
    requires |clauses| == 1
    ensures Join(TokensOf(clauses)) == clauses[0].tokens
    ensures ArgsOf(clauses) == clauses[0].args && ConditionsOf(clauses) == [clauses[0].condition]
  {
    assert TokensOf(clauses[1..]) == [] && ArgsOf(clauses[1..]) == [] && ConditionsOf(clauses[1..]) == [];
    assert TokensOf(clauses) == [clauses[0].tokens] && ArgsOf(clauses) == clauses[0].args + [];
  }

  /** A conjunction that starts with a clause goes on after an AND and ends without one. */
  lemma ClauseThen(clause: seq<Token>, args: seq<Value>, c: Condition, rest: seq<Token>, left: seq<Value>)
    requires ClauseReads(clause, args, c)
    ensures
      var r := ReadConjunction(clause + rest, args + left);
      if rest != [] && rest[0] == AND then
        match ReadConjunction(rest[1..], left)
        case None => r == None
        case Some(Read(more, tokens', left')) => r == Some(Read([c] + more, tokens', left'))
      else r == Some(Read([c], rest, left))
  {
    assert ReadComparison(clause + rest, args + left) == Some(Read(c, rest, left));
  }

  /** The number of placeholders in a piece of SQL. */
  function Placeholders(tokens: seq<Token>): nat {
    if tokens == [] then 0 else Placeholders(tokens[1..]) + if tokens[0] == Placeholder then 1 else 0
  }

  lemma {:induction false} PlaceholdersConcat(a: seq<Token>, b: seq<Token>)
    ensures Placeholders(a + b) == Placeholders(a) + Placeholders(b)
  {
    if a == [] {
      assert a + b == b;
    } else {
      assert (a + b)[1..] == a[1..] + b;
      PlaceholdersConcat(a[1..], b);
    }
  }

  /** Reading a predicate uses up one argument for each placeholder. */
  lemma {:induction false} ConjunctionBindsAll(tokens: seq<Token>, args: seq<Value>)
    requires ReadConjunction(tokens, args).Some?
    ensures
      var r := ReadConjunction(tokens, args).value;
      Placeholders(tokens) - Placeholders(r.tokens) == |args| - |r.args|
    decreases |tokens|
  {
    var first := ReadComparison(tokens, args).value;
    ComparisonBindsAll(tokens, args);
    if first.tokens != [] && first.tokens[0] == AND {
      ConjunctionBindsAll(first.tokens[1..], first.args);
    }
  }

  lemma ComparisonBindsAll(tokens: seq<Token>, args: seq<Value>)
    requires ReadComparison(tokens, args).Some?
    ensures
      var r := ReadComparison(tokens, args).value;
      Placeholders(tokens) - Placeholders(r.tokens) == |args| - |r.args|
  {
    var r := ReadComparison(tokens, args).value;
    var n := |tokens| - |r.tokens|;
    assert tokens == tokens[..n] + r.tokens;
    if n == 3 {
      assert tokens[..n] == [tokens[0], tokens[1], tokens[2]];
    } else {
      assert tokens[..n] == [Open, tokens[1], Comma] + [tokens[3], Close, tokens[5]] + [Open, Placeholder, Comma] + [Placeholder, Close];
    }
    hide Placeholders;
    PlaceholdersConcat(tokens[..n], r.tokens);
    if n == 3 {
      CountThree(tokens[0], tokens[1], tokens[2]);
    } else {
      CountRow(tokens[1], tokens[3], tokens[5]);
    }
  }

  /** A comparison of pairs holds two placeholders. */
  lemma CountRow(first: Token, second: Token, op: Token)
    requires Placeholder !in [first, second, op]
    ensures Placeholders([Open, first, Comma] + [second, Close, op] + [Open, Placeholder, Comma] + [Placeholder, Close]) == 2
  {
    var a, b, c, d := [Open, first, Comma], [second, Close, op], [Open, Placeholder, Comma], [Placeholder, Close];
    assert Placeholders(d) == 1 by {
      assert d[1..] == [Close] && [Close][1..] == [];
    }
    hide Placeholders;
    assert [first, second, op][0] != Placeholder && [first, second, op][1] != Placeholder && [first, second, op][2] != Placeholder;
    CountThree(Open, first, Comma);
    CountThree(second, Close, op);
    CountThree(Open, Placeholder, Comma);
    PlaceholdersConcat(a, b);
    PlaceholdersConcat(a + b, c);
    PlaceholdersConcat(a + b + c, d);
  }

  lemma CountThree(a: Token, b: Token, c: Token)
    ensures Placeholders([a, b, c]) == (if a == Placeholder then 1 else 0) + (if b == Placeholder then 1 else 0) + (if c == Placeholder then 1 else 0)
  {
    assert [a, b, c][1..] == [b, c] && [b, c][1..] == [c] && [c][1..] == [];
    assert Placeholders([c]) == if c == Placeholder then 1 else 0;
    assert Placeholders([b, c]) == Placeholders([c]) + if b == Placeholder then 1 else 0;
  }
}
