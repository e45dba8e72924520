/** What plain values in place of placeholders make of the builder's calls and of
    the statement they build. */
module RawQueryFilling {
  import opened SqlFragments
  import opened RawQueries
  import opened RawQueryProofs

  function TableArgument(t: Table): seq<Value> {
    if t.Derived? then t.sql.values else []
  }

  function SqlArguments(sqls: seq<Sql>): seq<Value> {
    if sqls == [] then [] else sqls[0].values + SqlArguments(sqls[1..])
  }

  function TableArguments(tables: seq<Table>): seq<Value> {
    if tables == [] then [] else TableArgument(tables[0]) + TableArguments(tables[1..])
  }

  /** Every value a call is given, in order. */
  function Arguments(call: Call): seq<Value> {
    match call
    case Select(_) => []
    case SelectFragments(fragments, _) => SqlArguments(fragments)
    case From(table, _) => TableArgument(table)
    case Where(conditions) => SqlArguments(conditions)
    case AndWhere(condition) => condition.values
    case OrWhere(condition) => condition.values
    case WhereIn(_, values) => values
    case WhereNotIn(_, values) => values
    case WhereNull(_) => []
    case WhereNotNull(_) => []
    case WhereBetween(_, min, max) => [min, max]
    case Join(_, table, _, condition) => TableArgument(table) + condition.values
    case GroupBy(keys) => TableArguments(keys)
    case Having(conditions) => SqlArguments(conditions)
    case Limit(offset, count) => (if offset.None? then [] else [offset.value]) + [count]
    case Offset(skipped) => [skipped]
    case AppendSql(sql) => sql.values
    case With(cte) => cte.sql.values
    case AddSelectExpression(expr) => expr.values
  }

  lemma FilledInConcat(params: Params, a: seq<Value>, a': seq<Value>, b: seq<Value>, b': seq<Value>)
    requires FilledIn(params, a, a') && FilledIn(params, b, b')
    ensures FilledIn(params, a + b, a' + b')
  {}

  lemma ValuesFilledIn(params: Params, values: seq<Value>)
    ensures FilledIn(params, values, FilledValues(params, values))
  {}

  lemma {:induction false} SqlsFilledIn(params: Params, sqls: seq<Sql>)
    ensures FilledIn(params, SqlArguments(sqls), SqlArguments(FilledSqls(params, sqls)))
  {
    if sqls != [] {
      SqlsFilledIn(params, sqls[1..]);
      assert FilledSqls(params, sqls)[1..] == FilledSqls(params, sqls[1..]);
      ValuesFilledIn(params, sqls[0].values);
      FilledInConcat(params, sqls[0].values, FilledValues(params, sqls[0].values), SqlArguments(sqls[1..]),
                     SqlArguments(FilledSqls(params, sqls[1..])));
    }
  }

  lemma TableFilledIn(params: Params, t: Table)
    ensures FilledIn(params, TableArgument(t), TableArgument(FilledTable(params, t)))
  {
    if t.Derived? { ValuesFilledIn(params, t.sql.values); }
  }

  lemma {:induction false} TablesFilledIn(params: Params, tables: seq<Table>)
    ensures FilledIn(params, TableArguments(tables), TableArguments(FilledTables(params, tables)))
  {
    if tables != [] {
      TablesFilledIn(params, tables[1..]);
      assert FilledTables(params, tables)[1..] == FilledTables(params, tables[1..]);
      TableFilledIn(params, tables[0]);
      FilledInConcat(params, TableArgument(tables[0]), TableArgument(FilledTable(params, tables[0])), TableArguments(tables[1..]),
                     TableArguments(FilledTables(params, tables[1..])));
    }
  }

  /** The calls that take fragments only. */
  predicate TakesFragments(call: Call) {
    || call.SelectFragments? || call.Where? || call.AndWhere? || call.OrWhere? || call.Having? || call.AppendSql?
    || call.With? || call.AddSelectExpression?
  }

  lemma FragmentsFilledIn(params: Params, call: Call)
    requires TakesFragments(call)
    ensures FilledIn(params, Arguments(call), Arguments(FilledCall(params, call)))
  {
    match call
    case SelectFragments(fragments, _) => SqlsFilledIn(params, fragments);
    case Where(conditions) => SqlsFilledIn(params, conditions);
    case AndWhere(condition) => ValuesFilledIn(params, condition.values);
    case OrWhere(condition) => ValuesFilledIn(params, condition.values);
    case Having(conditions) => SqlsFilledIn(params, conditions);
    case AppendSql(sql) => ValuesFilledIn(params, sql.values);
    case With(cte) => ValuesFilledIn(params, cte.sql.values);
    case AddSelectExpression(expr) => ValuesFilledIn(params, expr.values);
  }

  /** A filled call is the same call, with each placeholder that has a value giving
      way to it. */
  lemma CallFilledIn(params: Params, call: Call)
    ensures FilledIn(params, Arguments(call), Arguments(FilledCall(params, call)))
  {
    if TakesFragments(call) {
      FragmentsFilledIn(params, call);
    } else {
      ValuesCallFilledIn(params, call);
    }
  }

  lemma ValuesCallFilledIn(params: Params, call: Call)
    requires !TakesFragments(call)
    ensures FilledIn(params, Arguments(call), Arguments(FilledCall(params, call)))
  {
    match call
    case From(table, _) => TableFilledIn(params, table);
    case WhereIn(_, values) => ValuesFilledIn(params, values);
    case WhereNotIn(_, values) => ValuesFilledIn(params, values);
    case Join(_, table, _, condition) =>
      TableFilledIn(params, table);
      ValuesFilledIn(params, condition.values);
      FilledInConcat(params, TableArgument(table), TableArgument(FilledTable(params, table)), condition.values,
                     FilledValues(params, condition.values));
    case GroupBy(keys) => TablesFilledIn(params, keys);
    case _ =>
  }

  lemma {:induction false} FilledCallsAre(params: Params, calls: seq<Call>)
    ensures |FilledCalls(params, calls)| == |calls|
    ensures forall i :: 0 <= i < |calls| ==> FilledCalls(params, calls)[i] == FilledCall(params, calls[i])
  {
    if calls != [] { FilledCallsAre(params, calls[1..]); }
  }

  /** Parameters that are plain values themselves. */
  ghost predicate Plain(params: Params) {
    forall name :: name in params ==> !params[name].Placeholder?
  }

  /** Executing a compiled query is building the same calls over plain values: in
      each of them every placeholder that has a value gave way to it, and none of
      those is left. */
  lemma CompiledHoldsValues(dialect: Dialect, calls: seq<Call>, params: Params) returns (plain: seq<Call>)
    requires BuildCalls(dialect, calls).Ok? && Plain(params)
    requires forall name :: Names(BuildCalls(dialect, calls).value.values, name) ==> name in params
    ensures |plain| == |calls| && forall i :: 0 <= i < |calls| ==> FilledIn(params, Arguments(calls[i]), Arguments(plain[i]))
    ensures forall i, k :: 0 <= i < |plain| && 0 <= k < |Arguments(plain[i])| && Arguments(plain[i])[k].Placeholder? ==>
              Arguments(plain[i])[k].name !in params
    ensures BuildCalls(dialect, plain) == Execute(BuildCalls(dialect, calls).value, params)
    ensures BuildCalls(dialect, plain).Ok?
            && BuildCalls(dialect, plain).value.strings == BuildCalls(dialect, calls).value.strings
            && FilledIn(params, BuildCalls(dialect, calls).value.values, BuildCalls(dialect, plain).value.values)
  {
    plain := FilledCalls(params, calls);
    FilledCallsAre(params, calls);
    forall i | 0 <= i < |calls| ensures FilledIn(params, Arguments(calls[i]), Arguments(plain[i])) {
      CallFilledIn(params, calls[i]);
    }
    CompiledIsBuilt(dialect, calls, params);
    ExecuteFills(BuildCalls(dialect, calls).value, params);
  }
}
