/** Compiling then executing commutes with building: filling placeholders in
    after the fact gives what plain values in the calls would have built. */
module RawQueryProofs {
  import opened Metadata
  import opened SqlFragments
  import opened RawQueries

  lemma FilledOne(params: Params, a: Arg)
    ensures FilledArgs(params, [a]) == [FilledArg(params, a)]
  {}

  lemma FilledTwo(params: Params, a: Arg, b: Arg)
    ensures FilledArgs(params, [a, b]) == [FilledArg(params, a), FilledArg(params, b)]
  {}

  lemma FilledThree(params: Params, a: Arg, b: Arg, c: Arg)
    ensures FilledArgs(params, [a, b, c]) == [FilledArg(params, a), FilledArg(params, b), FilledArg(params, c)]
  {}

  lemma FilledFour(params: Params, a: Arg, b: Arg, c: Arg, d: Arg)
    ensures FilledArgs(params, [a, b, c, d])
            == [FilledArg(params, a), FilledArg(params, b), FilledArg(params, c), FilledArg(params, d)]
  {}

  lemma FilledRaw(params: Params, text: string)
    ensures FilledSql(params, Raw(text)) == Raw(text)
  {}

  lemma FilledPair(params: Params, s0: string, a: Arg, s1: string, b: Arg, s2: string)
    ensures FilledSql(params, Template([s0, s1, s2], [a, b]))
            == Template([s0, s1, s2], [FilledArg(params, a), FilledArg(params, b)])
  {
    FilledTemplate(params, [s0, s1, s2], [a, b]);
    FilledTwo(params, a, b);
  }

  lemma FilledSingle(params: Params, s0: string, a: Arg, s1: string)
    ensures FilledSql(params, Template([s0, s1], [a])) == Template([s0, s1], [FilledArg(params, a)])
  {
    FilledTemplate(params, [s0, s1], [a]);
    FilledOne(params, a);
  }

  lemma FilledTriple(params: Params, s0: string, a: Arg, s1: string, b: Arg, s2: string, c: Arg, s3: string)
    ensures FilledSql(params, Template([s0, s1, s2, s3], [a, b, c]))
            == Template([s0, s1, s2, s3], [FilledArg(params, a), FilledArg(params, b), FilledArg(params, c)])
  {
    FilledTemplate(params, [s0, s1, s2, s3], [a, b, c]);
    FilledThree(params, a, b, c);
  }

  lemma FilledJoined(params: Params, sqls: seq<Sql>, separator: string)
    requires sqls != []
    ensures FilledSql(params, SqlFragments.Join(Splices(sqls), separator))
            == SqlFragments.Join(Splices(FilledSqls(params, sqls)), separator)
  {
    FilledJoin(params, Splices(sqls), separator);
    FilledSplices(params, sqls);
  }

  lemma FilledList(params: Params, keyword: string, column: string, operator: string, values: seq<Value>)
    requires values != []
    ensures FilledSql(params, ListSegment(keyword, column, operator, values))
            == ListSegment(keyword, column, operator, FilledValues(params, values))
  {
    var head, list := Raw(keyword + " " + column), SqlFragments.Join(Binds(values), ", ");
    FilledPair(params, "", Spliced(head), operator, Spliced(list), ")");
    FilledRaw(params, keyword + " " + column);
    FilledJoin(params, Binds(values), ", ");
    FilledBinds(params, values);
  }

  lemma FilledFrom(params: Params, table: Table, alias: string)
    ensures FilledSql(params, FromSegment(table, alias)) == FromSegment(FilledTable(params, table), alias)
  {
    match table
    case Named(text) => FilledRaw(params, if alias == "" then "FROM " + text else "FROM " + text + " AS " + alias);
    case Derived(sql) =>
      if alias == "" {
        FilledSingle(params, "FROM ", Spliced(sql), "");
      } else {
        FilledPair(params, "FROM ", Spliced(sql), " ", Spliced(Raw(alias)), "");
        FilledRaw(params, alias);
      }
  }

  lemma FilledJoinClause(params: Params, kind: string, table: Table, alias: string, condition: Sql)
    ensures FilledSql(params, JoinSegment(kind, table, alias, condition))
            == JoinSegment(kind, FilledTable(params, table), alias, FilledSql(params, condition))
  {
    FilledRaw(params, kind);
    FilledRaw(params, alias);
    match table
    case Named(text) =>
      var head := if Includes(text, " AS " + alias) then kind + " JOIN " + text else kind + " JOIN " + text + " AS " + alias;
      FilledRaw(params, head);
      FilledPair(params, "", Spliced(Raw(head)), " ON ", Spliced(condition), "");
    case Derived(sql) =>
      assert Text(FilledSql(params, sql)) == Text(sql);
      if Includes(Text(sql), " AS " + alias) {
        FilledTriple(params, "", Spliced(Raw(kind)), " JOIN ", Spliced(sql), " ON ", Spliced(condition), "");
      } else {
        var args := [Spliced(Raw(kind)), Spliced(sql), Spliced(Raw(alias)), Spliced(condition)];
        FilledTemplate(params, ["", " JOIN ", " AS ", " ON ", ""], args);
        FilledFour(params, args[0], args[1], args[2], args[3]);
      }
  }

  lemma FilledLimit(params: Params, dialect: Dialect, offset: Option<Value>, count: Value)
    ensures FilledSql(params, LimitSegment(dialect, offset, count))
            == LimitSegment(dialect, if offset.None? then None else Some(Filled(params, offset.value)), Filled(params, count))
  {
    if offset.None? {
      FilledSingle(params, "LIMIT ", Bound(count), "");
    } else if dialect.MySql? {
      FilledPair(params, "LIMIT ", Bound(offset.value), ", ", Bound(count), "");
    } else {
      FilledPair(params, "LIMIT ", Bound(count), " OFFSET ", Bound(offset.value), "");
    }
  }

  lemma {:induction false} FilledNames(params: Params, keys: seq<Table>)
    ensures AllNames(FilledTables(params, keys)) == AllNames(keys)
  {
    if keys != [] {
      FilledNames(params, keys[1..]);
      assert FilledTables(params, keys)[1..] == FilledTables(params, keys[1..]);
    }
  }

  lemma FilledKeys(params: Params, keys: seq<Table>)
    ensures FilledArgs(params, TableArgs(keys)) == TableArgs(FilledTables(params, keys))
  {
    forall i | 0 <= i < |keys| ensures FilledArg(params, TableArg(keys[i])) == TableArg(FilledTable(params, keys[i])) {
      if keys[i].Named? { FilledRaw(params, keys[i].text); }
    }
  }

  lemma FilledGroupBy(params: Params, keys: seq<Table>)
    requires keys != []
    ensures var segment := Template(["GROUP BY ", ""], [Spliced(SqlFragments.Join(TableArgs(keys), ", "))]);
            FilledSql(params, segment)
            == Template(["GROUP BY ", ""], [Spliced(SqlFragments.Join(TableArgs(FilledTables(params, keys)), ", "))])
  {
    FilledSingle(params, "GROUP BY ", Spliced(SqlFragments.Join(TableArgs(keys), ", ")), "");
    FilledJoin(params, TableArgs(keys), ", ");
    FilledKeys(params, keys);
  }

  lemma FilledClause(params: Params, keyword: string, sqls: seq<Sql>, separator: string)
    requires sqls != []
    ensures FilledSql(params, Template([keyword, ""], [Spliced(SqlFragments.Join(Splices(sqls), separator))]))
            == Template([keyword, ""], [Spliced(SqlFragments.Join(Splices(FilledSqls(params, sqls)), separator))])
  {
    FilledSingle(params, keyword, Spliced(SqlFragments.Join(Splices(sqls), separator)), "");
    FilledJoined(params, sqls, separator);
  }

  lemma FilledSelect(params: Params, keyword: string, sqls: seq<Sql>)
    requires sqls != []
    ensures FilledSql(params, Template(["", " ", ""], [Spliced(Raw(keyword)), Spliced(SqlFragments.Join(Splices(sqls), ", "))]))
            == Template(["", " ", ""], [Spliced(Raw(keyword)), Spliced(SqlFragments.Join(Splices(FilledSqls(params, sqls)), ", "))])
  {
    FilledPair(params, "", Spliced(Raw(keyword)), " ", Spliced(SqlFragments.Join(Splices(sqls), ", ")), "");
    FilledRaw(params, keyword);
    FilledJoined(params, sqls, ", ");
  }

  // ------------------------------------------------------------- the builder

  lemma FilledPush(params: Params, b: Builder, sql: Sql, filled: Sql)
    requires filled == FilledSql(params, sql)
    ensures FilledBuilder(params, Pushed(b, sql)) == Pushed(FilledBuilder(params, b), filled)
    ensures FilledBuilder(params, Condition(b, sql)) == Condition(FilledBuilder(params, b), filled)
  {
    assert FilledSqls(params, b.segments + [sql]) == FilledSqls(params, b.segments) + [filled];
  }

  function FilledResult(params: Params, r: Result<Builder>): Result<Builder> {
    if r.Err? then r else Ok(FilledBuilder(params, r.value))
  }

  /** A call fills the same before or after it is applied. */
  ghost predicate Commutes(params: Params, b: Builder, call: Call) {
    Apply(FilledBuilder(params, b), FilledCall(params, call)) == FilledResult(params, Apply(b, call))
  }

  lemma SelectCommutes(params: Params, b: Builder, columns: seq<string>)
    ensures Commutes(params, b, Select(columns))
  {
    var sql := Raw("SELECT " + Concat(columns, ", "));
    FilledRaw(params, "SELECT " + Concat(columns, ", "));
    FilledPush(params, b, sql, sql);
  }

  lemma SelectFragmentsCommutes(params: Params, b: Builder, fragments: seq<Sql>, distinct: bool)
    ensures Commutes(params, b, SelectFragments(fragments, distinct))
  {
    if fragments != [] {
      var keyword := if distinct then "SELECT DISTINCT" else "SELECT";
      var filled := FilledSqls(params, fragments);
      FilledSelect(params, keyword, fragments);
      FilledPush(params, b, Template(["", " ", ""], [Spliced(Raw(keyword)), Spliced(SqlFragments.Join(Splices(fragments), ", "))]),
                 Template(["", " ", ""], [Spliced(Raw(keyword)), Spliced(SqlFragments.Join(Splices(filled), ", "))]));
    }
  }

  lemma FromCommutes(params: Params, b: Builder, table: Table, alias: string)
    ensures Commutes(params, b, From(table, alias))
  {
    FilledFrom(params, table, alias);
    FilledPush(params, b, FromSegment(table, alias), FromSegment(FilledTable(params, table), alias));
  }

  lemma JoinCommutes(params: Params, b: Builder, kind: string, table: Table, alias: string, condition: Sql)
    ensures Commutes(params, b, Join(kind, table, alias, condition))
  {
    FilledJoinClause(params, kind, table, alias, condition);
    FilledPush(params, b, JoinSegment(kind, table, alias, condition),
               JoinSegment(kind, FilledTable(params, table), alias, FilledSql(params, condition)));
  }

  lemma WhereCommutes(params: Params, b: Builder, conditions: seq<Sql>)
    ensures Commutes(params, b, Where(conditions))
  {
    var filled := FilledSqls(params, conditions);
    if |conditions| == 1 {
      FilledSingle(params, "WHERE ", Spliced(conditions[0]), "");
      FilledPush(params, b, Template(["WHERE ", ""], [Spliced(conditions[0])]), Template(["WHERE ", ""], [Spliced(filled[0])]));
    } else if conditions != [] {
      FilledClause(params, "WHERE ", conditions, " AND ");
      FilledPush(params, b, Template(["WHERE ", ""], [Spliced(SqlFragments.Join(Splices(conditions), " AND "))]),
                 Template(["WHERE ", ""], [Spliced(SqlFragments.Join(Splices(filled), " AND "))]));
    }
  }

  lemma KeywordCommutes(params: Params, b: Builder, keyword: string, condition: Sql)
    ensures FilledBuilder(params, Pushed(b, Template([keyword, ""], [Spliced(condition)])))
            == Pushed(FilledBuilder(params, b), Template([keyword, ""], [Spliced(FilledSql(params, condition))]))
  {
    FilledSingle(params, keyword, Spliced(condition), "");
    FilledPush(params, b, Template([keyword, ""], [Spliced(condition)]), Template([keyword, ""], [Spliced(FilledSql(params, condition))]));
  }

  lemma ListCommutes(params: Params, b: Builder, column: string, operator: string, values: seq<Value>)
    requires values != []
    ensures FilledBuilder(params, Condition(b, ListSegment(Keyword(b), column, operator, values)))
            == Condition(FilledBuilder(params, b), ListSegment(Keyword(b), column, operator, FilledValues(params, values)))
  {
    FilledList(params, Keyword(b), column, operator, values);
    FilledPush(params, b, ListSegment(Keyword(b), column, operator, values),
               ListSegment(Keyword(b), column, operator, FilledValues(params, values)));
  }

  lemma TextCommutes(params: Params, b: Builder, text: string)
    ensures FilledBuilder(params, Condition(b, Raw(text))) == Condition(FilledBuilder(params, b), Raw(text))
  {
    FilledRaw(params, text);
    FilledPush(params, b, Raw(text), Raw(text));
  }

  lemma BetweenCommutes(params: Params, b: Builder, column: string, min: Value, max: Value)
    ensures Commutes(params, b, WhereBetween(column, min, max))
  {
    var head := Raw(Keyword(b) + " " + column);
    FilledRaw(params, Keyword(b) + " " + column);
    FilledTriple(params, "", Spliced(head), " BETWEEN ", Bound(min), " AND ", Bound(max), "");
    FilledPush(params, b, Template(["", " BETWEEN ", " AND ", ""], [Spliced(head), Bound(min), Bound(max)]),
               Template(["", " BETWEEN ", " AND ", ""], [Spliced(head), Bound(Filled(params, min)), Bound(Filled(params, max))]));
  }

  lemma GroupByCommutes(params: Params, b: Builder, keys: seq<Table>)
    ensures Commutes(params, b, GroupBy(keys))
  {
    FilledNames(params, keys);
    if keys != [] {
      if AllNames(keys).Some? {
        var text := "GROUP BY " + Concat(AllNames(keys).value, ", ");
        FilledRaw(params, text);
        FilledPush(params, b, Raw(text), Raw(text));
      } else {
        var filled := FilledTables(params, keys);
        FilledGroupBy(params, keys);
        FilledPush(params, b, Template(["GROUP BY ", ""], [Spliced(SqlFragments.Join(TableArgs(keys), ", "))]),
                   Template(["GROUP BY ", ""], [Spliced(SqlFragments.Join(TableArgs(filled), ", "))]));
      }
    }
  }

  lemma HavingCommutes(params: Params, b: Builder, conditions: seq<Sql>)
    ensures Commutes(params, b, Having(conditions))
  {
    if conditions != [] {
      var filled := FilledSqls(params, conditions);
      FilledClause(params, "HAVING ", conditions, " AND ");
      FilledPush(params, b, Template(["HAVING ", ""], [Spliced(SqlFragments.Join(Splices(conditions), " AND "))]),
                 Template(["HAVING ", ""], [Spliced(SqlFragments.Join(Splices(filled), " AND "))]));
    }
  }

  lemma LimitCommutes(params: Params, b: Builder, offset: Option<Value>, count: Value)
    ensures Commutes(params, b, Limit(offset, count))
  {
    var filled := if offset.None? then None else Some(Filled(params, offset.value));
    FilledLimit(params, b.dialect, offset, count);
    FilledPush(params, b, LimitSegment(b.dialect, offset, count), LimitSegment(b.dialect, filled, Filled(params, count)));
  }

  lemma OffsetCommutes(params: Params, b: Builder, skipped: Value)
    ensures Commutes(params, b, Offset(skipped))
  {
    FilledSingle(params, "OFFSET ", Bound(skipped), "");
    FilledPush(params, b, Template(["OFFSET ", ""], [Bound(skipped)]), Template(["OFFSET ", ""], [Bound(Filled(params, skipped))]));
  }

  lemma WithCommutes(params: Params, b: Builder, cte: Cte)
    ensures Commutes(params, b, With(cte))
  {
    assert FilledCtes(params, b.ctes + [cte]) == FilledCtes(params, b.ctes) + [FilledCte(params, cte)];
  }

  lemma ExpressionCommutes(params: Params, b: Builder, expr: Sql)
    ensures Commutes(params, b, AddSelectExpression(expr))
  {
    assert FilledSqls(params, b.extras + [expr]) == FilledSqls(params, b.extras) + [FilledSql(params, expr)];
  }

  lemma AndWhereCommutes(params: Params, b: Builder, condition: Sql)
    ensures Commutes(params, b, AndWhere(condition))
  {
    KeywordCommutes(params, b, "AND ", condition);
  }

  lemma OrWhereCommutes(params: Params, b: Builder, condition: Sql)
    ensures Commutes(params, b, OrWhere(condition))
  {
    KeywordCommutes(params, b, "OR ", condition);
  }

  lemma WhereInCommutes(params: Params, b: Builder, column: string, values: seq<Value>)
    ensures Commutes(params, b, WhereIn(column, values))
  {
    if values == [] { TextCommutes(params, b, Keyword(b) + " 1=0"); } else { ListCommutes(params, b, column, " IN (", values); }
  }

  lemma WhereNotInCommutes(params: Params, b: Builder, column: string, values: seq<Value>)
    ensures Commutes(params, b, WhereNotIn(column, values))
  {
    if values != [] { ListCommutes(params, b, column, " NOT IN (", values); }
  }

  lemma WhereNullCommutes(params: Params, b: Builder, column: string)
    ensures Commutes(params, b, WhereNull(column)) && Commutes(params, b, WhereNotNull(column))
  {
    TextCommutes(params, b, Keyword(b) + " " + column + " IS NULL");
    TextCommutes(params, b, Keyword(b) + " " + column + " IS NOT NULL");
  }

  lemma AppendCommutes(params: Params, b: Builder, sql: Sql)
    ensures Commutes(params, b, AppendSql(sql))
  {
    FilledPush(params, b, sql, FilledSql(params, sql));
  }

  lemma CallCommutes(params: Params, b: Builder, call: Call)
    ensures Commutes(params, b, call)
  {
    match call
    case Select(columns) => SelectCommutes(params, b, columns);
    case SelectFragments(fragments, distinct) => SelectFragmentsCommutes(params, b, fragments, distinct);
    case From(table, alias) => FromCommutes(params, b, table, alias);
    case Where(conditions) => WhereCommutes(params, b, conditions);
    case AndWhere(condition) => AndWhereCommutes(params, b, condition);
    case OrWhere(condition) => OrWhereCommutes(params, b, condition);
    case WhereIn(column, values) => WhereInCommutes(params, b, column, values);
    case WhereNotIn(column, values) => WhereNotInCommutes(params, b, column, values);
    case WhereNull(column) => WhereNullCommutes(params, b, column);
    case WhereNotNull(column) => WhereNullCommutes(params, b, column);
    case WhereBetween(column, min, max) => BetweenCommutes(params, b, column, min, max);
    case Join(kind, table, alias, condition) => JoinCommutes(params, b, kind, table, alias, condition);
    case GroupBy(keys) => GroupByCommutes(params, b, keys);
    case Having(conditions) => HavingCommutes(params, b, conditions);
    case Limit(offset, count) => LimitCommutes(params, b, offset, count);
    case Offset(skipped) => OffsetCommutes(params, b, skipped);
    case AppendSql(sql) => AppendCommutes(params, b, sql);
    case With(cte) => WithCommutes(params, b, cte);
    case AddSelectExpression(expr) => ExpressionCommutes(params, b, expr);
  }

  lemma {:induction false} FilledApplyAll(params: Params, b: Builder, calls: seq<Call>)
    ensures ApplyAll(FilledBuilder(params, b), FilledCalls(params, calls)) == FilledResult(params, ApplyAll(b, calls))
    decreases |calls|
  {
    if calls != [] {
      CallCommutes(params, b, calls[0]);
      assert FilledCalls(params, calls)[1..] == FilledCalls(params, calls[1..]);
      if Apply(b, calls[0]).Ok? { FilledApplyAll(params, Apply(b, calls[0]).value, calls[1..]); }
    }
  }

  lemma FilledWith(params: Params, ctes: seq<Cte>)
    requires ctes != []
    ensures FilledSql(params, WithSegment(ctes)) == WithSegment(FilledCtes(params, ctes))
  {
    assert AnyRecursive(FilledCtes(params, ctes)) == AnyRecursive(ctes) by {
      forall i | 0 <= i < |ctes| ensures FilledCtes(params, ctes)[i].recursive == ctes[i].recursive {}
    }
    assert FilledSqls(params, CteSqls(ctes)) == CteSqls(FilledCtes(params, ctes)) by {
      forall i | 0 <= i < |ctes| ensures FilledSql(params, CteSql(ctes[i])) == CteSql(FilledCte(params, ctes[i])) {
        FilledPair(params, "", Spliced(Raw(ctes[i].name)), " AS (", Spliced(ctes[i].sql), ")");
        FilledRaw(params, ctes[i].name);
      }
    }
    FilledSelect(params, if AnyRecursive(ctes) then "WITH RECURSIVE" else "WITH", CteSqls(ctes));
  }

  lemma FilledFirst(params: Params, first: Sql, extras: seq<Sql>)
    requires extras != []
    ensures FilledSql(params, SelectSegment(first, extras)) == SelectSegment(FilledSql(params, first), FilledSqls(params, extras))
  {
    FilledPair(params, "", Spliced(first), ", ", Spliced(SqlFragments.Join(Splices(extras), ", ")), "");
    FilledJoined(params, extras, ", ");
  }

  lemma FilledSqlsConcat(params: Params, a: seq<Sql>, b: seq<Sql>)
    ensures FilledSqls(params, a + b) == FilledSqls(params, a) + FilledSqls(params, b)
  {}

  lemma FilledSqlsCons(params: Params, first: Sql, rest: seq<Sql>)
    ensures FilledSqls(params, [first] + rest) == [FilledSql(params, first)] + FilledSqls(params, rest)
  {}

  lemma FilledFront(params: Params, ctes: seq<Cte>)
    ensures FilledSqls(params, Front(ctes)) == Front(FilledCtes(params, ctes))
  {
    if ctes != [] {
      FilledWith(params, ctes);
      FilledSqlsCons(params, WithSegment(ctes), []);
    }
  }

  lemma FilledBody(params: Params, segments: seq<Sql>, extras: seq<Sql>)
    ensures FilledSqls(params, Body(segments, extras)) == Body(FilledSqls(params, segments), FilledSqls(params, extras))
  {
    if segments != [] && extras != [] {
      FilledFirst(params, segments[0], extras);
      FilledSqlsCons(params, SelectSegment(segments[0], extras), segments[1..]);
      assert FilledSqls(params, segments[1..]) == FilledSqls(params, segments)[1..];
    }
  }

  lemma FilledSegments(params: Params, b: Builder)
    ensures FilledSqls(params, AllSegments(b)) == AllSegments(FilledBuilder(params, b))
  {
    FilledFront(params, b.ctes);
    FilledBody(params, b.segments, b.extras);
    FilledSqlsConcat(params, Front(b.ctes), Body(b.segments, b.extras));
  }

  lemma FilledBuild(params: Params, b: Builder)
    ensures Build(FilledBuilder(params, b)) == if Build(b).Err? then Build(b) else Ok(FilledSql(params, Build(b).value))
  {
    FilledSegments(params, b);
    var segments := AllSegments(b);
    if segments != [] { FilledJoined(params, segments, " "); }
  }

  /** For any calls, executing the compiled query with values for all its
      placeholders runs what the same calls with plain values build: the same
      strings and the same values. */
  lemma CompiledIsBuilt(dialect: Dialect, calls: seq<Call>, params: Params)
    requires BuildCalls(dialect, calls).Ok?
    requires forall name :: Names(BuildCalls(dialect, calls).value.values, name) ==> name in params
    ensures Execute(BuildCalls(dialect, calls).value, params) == BuildCalls(dialect, FilledCalls(params, calls))
  {
    var b := ApplyAll(Create(dialect), calls).value;
    assert FilledBuilder(params, Create(dialect)) == Create(dialect);
    FilledApplyAll(params, Create(dialect), calls);
    FilledBuild(params, b);
    ExecuteFills(Build(b).value, params);
  }

  /** Plain values change nothing about whether the calls build. */
  lemma FailureIsUnchanged(dialect: Dialect, calls: seq<Call>, params: Params)
    requires BuildCalls(dialect, calls).Err?
    ensures BuildCalls(dialect, FilledCalls(params, calls)) == BuildCalls(dialect, calls)
  {
    assert FilledBuilder(params, Create(dialect)) == Create(dialect);
    FilledApplyAll(params, Create(dialect), calls);
    if ApplyAll(Create(dialect), calls).Ok? { FilledBuild(params, ApplyAll(Create(dialect), calls).value); }
  }

  // -------------------------------------------------------- no value is lost

  function ArgValues(args: seq<Arg>): seq<Value> {
    if args == [] then []
    else
      var last := args[|args| - 1];
      ArgValues(args[..|args| - 1]) + (if last.Bound? then [last.value] else last.sql.values)
  }

  function AllValues(sqls: seq<Sql>): seq<Value> {
    if sqls == [] then [] else AllValues(sqls[..|sqls| - 1]) + sqls[|sqls| - 1].values
  }

  function CteValues(ctes: seq<Cte>): seq<Value> {
    if ctes == [] then [] else CteValues(ctes[..|ctes| - 1]) + ctes[|ctes| - 1].sql.values
  }

  lemma {:induction false} TemplateKeepsValues(strings: seq<string>, args: seq<Arg>)
    requires |strings| == |args| + 1
    ensures Template(strings, args).values == ArgValues(args)
    decreases |args|
  {
    var n := |args|;
    if n > 0 { TemplateKeepsValues(strings[..n], args[..n - 1]); }
  }

  lemma {:induction false} SplicesKeepValues(sqls: seq<Sql>)
    ensures ArgValues(Splices(sqls)) == AllValues(sqls)
  {
    if sqls != [] {
      SplicesKeepValues(sqls[..|sqls| - 1]);
      assert Splices(sqls)[..|sqls| - 1] == Splices(sqls[..|sqls| - 1]);
    }
  }

  lemma JoinKeepsValues(sqls: seq<Sql>, separator: string)
    requires sqls != []
    ensures SqlFragments.Join(Splices(sqls), separator).values == AllValues(sqls)
  {
    TemplateKeepsValues([""] + Repeat(separator, |sqls| - 1) + [""], Splices(sqls));
    SplicesKeepValues(sqls);
  }

  lemma {:induction false} CtesKeepValues(ctes: seq<Cte>)
    ensures AllValues(CteSqls(ctes)) == CteValues(ctes)
  {
    if ctes != [] {
      var front, last := ctes[..|ctes| - 1], ctes[|ctes| - 1];
      CtesKeepValues(front);
      assert CteSqls(ctes)[..|ctes| - 1] == CteSqls(front);
      CteKeepsValues(last);
    }
  }

  lemma CteKeepsValues(cte: Cte)
    ensures CteSql(cte).values == cte.sql.values
  {
    PairValues("", Spliced(Raw(cte.name)), " AS (", Spliced(cte.sql), ")");
  }

  lemma PairValues(s0: string, a: Arg, s1: string, b: Arg, s2: string)
    ensures Template([s0, s1, s2], [a, b]).values == ArgValues([a]) + ArgValues([b])
  {
    TemplateKeepsValues([s0, s1, s2], [a, b]);
    assert [a, b][..1] == [a];
  }

  lemma FrontValues(ctes: seq<Cte>)
    ensures AllValues(Front(ctes)) == CteValues(ctes)
  {
    if ctes != [] {
      var list := SqlFragments.Join(Splices(CteSqls(ctes)), ", ");
      JoinKeepsValues(CteSqls(ctes), ", ");
      CtesKeepValues(ctes);
      PairValues("", Spliced(Raw(if AnyRecursive(ctes) then "WITH RECURSIVE" else "WITH")), " ", Spliced(list), "");
    }
  }

  lemma {:induction false} AllValuesConcat(a: seq<Sql>, b: seq<Sql>)
    ensures AllValues(a + b) == AllValues(a) + AllValues(b)
  {
    if b == [] {
      assert a + b == a;
    } else {
      assert (a + b)[..|a + b| - 1] == a + b[..|b| - 1];
      AllValuesConcat(a, b[..|b| - 1]);
    }
  }

  lemma SelectSegmentValues(first: Sql, extras: seq<Sql>)
    requires extras != []
    ensures SelectSegment(first, extras).values == first.values + AllValues(extras)
  {
    var list := SqlFragments.Join(Splices(extras), ", ");
    JoinKeepsValues(extras, ", ");
    PairValues("", Spliced(first), ", ", Spliced(list), "");
    assert ArgValues([Spliced(first)]) == first.values && ArgValues([Spliced(list)]) == list.values;
  }

  lemma BodyValues(segments: seq<Sql>, extras: seq<Sql>)
    requires segments != [] && extras != []
    ensures AllValues(Body(segments, extras)) == segments[0].values + AllValues(extras) + AllValues(segments[1..])
  {
    var head := SelectSegment(segments[0], extras);
    SelectSegmentValues(segments[0], extras);
    AllValuesConcat([head], segments[1..]);
    assert AllValues([head]) == head.values;
  }

  /** A built statement binds every value given to the builder, once, in the
      order their clauses appear: CTEs, the first segment, the extra columns,
      the other segments. */
  lemma BuildKeepsValues(b: Builder)
    requires Build(b).Ok?
    ensures Build(b).value.values
            == CteValues(b.ctes)
               + (if b.extras == [] || b.segments == [] then AllValues(b.segments)
                  else b.segments[0].values + AllValues(b.extras) + AllValues(b.segments[1..]))
  {
    JoinKeepsValues(AllSegments(b), " ");
    AllValuesConcat(Front(b.ctes), Body(b.segments, b.extras));
    FrontValues(b.ctes);
    if b.extras != [] && b.segments != [] { BodyValues(b.segments, b.extras); }
  }
}
