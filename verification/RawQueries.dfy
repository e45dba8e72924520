/** The raw query builder as a function of its calls, and compiling a query once
    to fill its placeholders in later. */
module RawQueries {
  import opened Metadata
  import opened SqlFragments

  datatype Dialect = MySql | Postgres | Sqlite

  datatype Error = InvalidQuery | NothingToJoin | MissingPlaceholder(name: string)

  datatype Result<T> = Ok(value: T) | Err(error: Error)

  datatype Cte = Cte(name: string, sql: Sql, recursive: bool)

  /** A table: its name as text, or a subquery. */
  datatype Table = Named(text: string) | Derived(sql: Sql)

  datatype Call =
    | Select(columns: seq<string>)
    | SelectFragments(fragments: seq<Sql>, distinct: bool)
    | From(table: Table, alias: string)
    | Where(conditions: seq<Sql>)
    | AndWhere(condition: Sql)
    | OrWhere(condition: Sql)
    | WhereIn(column: string, values: seq<Value>)
    | WhereNotIn(column: string, values: seq<Value>)
    | WhereNull(column: string)
    | WhereNotNull(column: string)
    | WhereBetween(column: string, min: Value, max: Value)
    | Join(kind: string, table: Table, alias: string, condition: Sql)
    | GroupBy(keys: seq<Table>)
    | Having(conditions: seq<Sql>)
    | Limit(offset: Option<Value>, count: Value)
    | Offset(skipped: Value)
    | AppendSql(sql: Sql)
    | With(cte: Cte)
    | AddSelectExpression(expr: Sql)

  datatype Builder = Builder(dialect: Dialect, segments: seq<Sql>, hasWhere: bool, ctes: seq<Cte>, extras: seq<Sql>)

  function Create(dialect: Dialect): Builder {
    Builder(dialect, [], false, [], [])
  }

  function Concat(texts: seq<string>, separator: string): string {
    if texts == [] then ""
    else if |texts| == 1 then texts[0]
    else texts[0] + separator + Concat(texts[1..], separator)
  }

  /** Whether `text` contains `part`. */
  predicate Includes(text: string, part: string) {
    |part| <= |text| && (text[..|part|] == part || (text != "" && Includes(text[1..], part)))
  }

  /** The text of a fragment with `?` for each value. */
  function Text(f: Sql): string {
    Concat(f.strings, "?")
  }

  function Pushed(b: Builder, sql: Sql): Builder {
    b.(segments := b.segments + [sql])
  }

  function Condition(b: Builder, sql: Sql): Builder {
    Pushed(b, sql).(hasWhere := true)
  }

  function Keyword(b: Builder): string {
    if b.hasWhere then "AND" else "WHERE"
  }

  function TableArg(table: Table): Arg {
    match table
    case Named(text) => Spliced(Raw(text))
    case Derived(sql) => Spliced(sql)
  }

  function TableArgs(tables: seq<Table>): (args: seq<Arg>)
    ensures |args| == |tables|
  {
    seq(|tables|, i requires 0 <= i < |tables| => TableArg(tables[i]))
  }

  function AllNames(tables: seq<Table>): Option<seq<string>> {
    if tables == [] then Some([])
    else if tables[0].Derived? || AllNames(tables[1..]).None? then None
    else Some([tables[0].text] + AllNames(tables[1..]).value)
  }

  function FromSegment(table: Table, alias: string): Sql {
    match table
    case Named(text) => Raw(if alias == "" then "FROM " + text else "FROM " + text + " AS " + alias)
    case Derived(sql) =>
      if alias == "" then Template(["FROM ", ""], [Spliced(sql)])
      else Template(["FROM ", " ", ""], [Spliced(sql), Spliced(Raw(alias))])
  }

  function JoinSegment(kind: string, table: Table, alias: string, condition: Sql): Sql {
    match table
    case Named(text) =>
      var head := if Includes(text, " AS " + alias) then kind + " JOIN " + text
                  else kind + " JOIN " + text + " AS " + alias;
      Template(["", " ON ", ""], [Spliced(Raw(head)), Spliced(condition)])
    case Derived(sql) =>
      if Includes(Text(sql), " AS " + alias) then
        Template(["", " JOIN ", " ON ", ""], [Spliced(Raw(kind)), Spliced(sql), Spliced(condition)])
      else
        Template(["", " JOIN ", " AS ", " ON ", ""],
                 [Spliced(Raw(kind)), Spliced(sql), Spliced(Raw(alias)), Spliced(condition)])
  }

  function LimitSegment(dialect: Dialect, offset: Option<Value>, count: Value): Sql {
    if offset.None? then Template(["LIMIT ", ""], [Bound(count)])
    else if dialect.MySql? then Template(["LIMIT ", ", ", ""], [Bound(offset.value), Bound(count)])
    else Template(["LIMIT ", " OFFSET ", ""], [Bound(count), Bound(offset.value)])
  }

  /** `keyword column operator (values)`. */
  function ListSegment(keyword: string, column: string, operator: string, values: seq<Value>): Sql
    requires values != []
  {
    Template(["", operator, ")"], [Spliced(Raw(keyword + " " + column)), Spliced(SqlFragments.Join(Binds(values), ", "))])
  }

  function Apply(b: Builder, call: Call): Result<Builder> {
    match call
    case Select(columns) =>
      if columns == [] then Err(InvalidQuery) else Ok(Pushed(b, Raw("SELECT " + Concat(columns, ", "))))
    case SelectFragments(fragments, distinct) =>
      if fragments == [] then Err(InvalidQuery)
      else Ok(Pushed(b, Template(["", " ", ""], [Spliced(Raw(if distinct then "SELECT DISTINCT" else "SELECT")),
                                                 Spliced(SqlFragments.Join(Splices(fragments), ", "))])))
    case From(table, alias) => Ok(Pushed(b, FromSegment(table, alias)))
    case Where(conditions) =>
      if conditions == [] then Ok(b)
      else if |conditions| == 1 then Ok(Condition(b, Template(["WHERE ", ""], [Spliced(conditions[0])])))
      else Ok(Condition(b, Template(["WHERE ", ""], [Spliced(SqlFragments.Join(Splices(conditions), " AND "))])))
    case AndWhere(condition) => Ok(Pushed(b, Template(["AND ", ""], [Spliced(condition)])))
    case OrWhere(condition) => Ok(Pushed(b, Template(["OR ", ""], [Spliced(condition)])))
    case WhereIn(column, values) =>
      if values == [] then Ok(Condition(b, Raw(Keyword(b) + " 1=0")))
      else Ok(Condition(b, ListSegment(Keyword(b), column, " IN (", values)))
    case WhereNotIn(column, values) =>
      if values == [] then Ok(b) else Ok(Condition(b, ListSegment(Keyword(b), column, " NOT IN (", values)))
    case WhereNull(column) => Ok(Condition(b, Raw(Keyword(b) + " " + column + " IS NULL")))
    case WhereNotNull(column) => Ok(Condition(b, Raw(Keyword(b) + " " + column + " IS NOT NULL")))
    case WhereBetween(column, min, max) =>
      Ok(Condition(b, Template(["", " BETWEEN ", " AND ", ""],
                               [Spliced(Raw(Keyword(b) + " " + column)), Bound(min), Bound(max)])))
    case Join(kind, table, alias, condition) => Ok(Pushed(b, JoinSegment(kind, table, alias, condition)))
    case GroupBy(keys) =>
      if keys == [] then Ok(b)
      else if AllNames(keys).Some? then Ok(Pushed(b, Raw("GROUP BY " + Concat(AllNames(keys).value, ", "))))
      else Ok(Pushed(b, Template(["GROUP BY ", ""], [Spliced(SqlFragments.Join(TableArgs(keys), ", "))])))
    case Having(conditions) =>
      if conditions == [] then Ok(b)
      else Ok(Pushed(b, Template(["HAVING ", ""], [Spliced(SqlFragments.Join(Splices(conditions), " AND "))])))
    case Limit(offset, count) => Ok(Pushed(b, LimitSegment(b.dialect, offset, count)))
    case Offset(skipped) => Ok(Pushed(b, Template(["OFFSET ", ""], [Bound(skipped)])))
    case AppendSql(sql) => Ok(Pushed(b, sql))
    case With(cte) => Ok(b.(ctes := b.ctes + [cte]))
    case AddSelectExpression(expr) => Ok(b.(extras := b.extras + [expr]))
  }

  function ApplyAll(b: Builder, calls: seq<Call>): Result<Builder>
    decreases |calls|
  {
    if calls == [] then Ok(b)
    else
      var first := Apply(b, calls[0]);
      if first.Err? then first else ApplyAll(first.value, calls[1..])
  }

  function CteSql(cte: Cte): Sql {
    Template(["", " AS (", ")"], [Spliced(Raw(cte.name)), Spliced(cte.sql)])
  }

  function CteSqls(ctes: seq<Cte>): (sqls: seq<Sql>)
    ensures |sqls| == |ctes|
  {
    seq(|ctes|, i requires 0 <= i < |ctes| => CteSql(ctes[i]))
  }

  predicate AnyRecursive(ctes: seq<Cte>) {
    exists i :: 0 <= i < |ctes| && ctes[i].recursive
  }

  function WithSegment(ctes: seq<Cte>): Sql
    requires ctes != []
  {
    Template(["", " ", ""], [Spliced(Raw(if AnyRecursive(ctes) then "WITH RECURSIVE" else "WITH")),
                             Spliced(SqlFragments.Join(Splices(CteSqls(ctes)), ", "))])
  }

  function SelectSegment(first: Sql, extras: seq<Sql>): Sql
    requires extras != []
  {
    Template(["", ", ", ""], [Spliced(first), Spliced(SqlFragments.Join(Splices(extras), ", "))])
  }

  /** All CTEs as one clause. */
  function Front(ctes: seq<Cte>): seq<Sql> {
    if ctes == [] then [] else [WithSegment(ctes)]
  }

  /** The segments with the extra columns after the first. */
  function Body(segments: seq<Sql>, extras: seq<Sql>): seq<Sql> {
    if extras == [] || segments == [] then segments else [SelectSegment(segments[0], extras)] + segments[1..]
  }

  function AllSegments(b: Builder): seq<Sql> {
    Front(b.ctes) + Body(b.segments, b.extras)
  }

  /** A builder nothing was pushed to has nothing to join. */
  function Build(b: Builder): Result<Sql> {
    var segments := AllSegments(b);
    if segments == [] then Err(NothingToJoin) else Ok(SqlFragments.Join(Splices(segments), " "))
  }

  function BuildCalls(dialect: Dialect, calls: seq<Call>): Result<Sql> {
    var b := ApplyAll(Create(dialect), calls);
    if b.Err? then Err(b.error) else Build(b.value)
  }

  // --------------------------------------------------------- compiled queries

  /** The values to run with; the first placeholder without one is an error. */
  function Resolve(slots: seq<Value>, params: Params): Result<seq<Value>>
    decreases |slots|
  {
    if slots == [] then Ok([])
    else if slots[0].Placeholder? && slots[0].name !in params then Err(MissingPlaceholder(slots[0].name))
    else
      var rest := Resolve(slots[1..], params);
      if rest.Err? then rest else Ok([Filled(params, slots[0])] + rest.value)
  }

  function Execute(compiled: Sql, params: Params): Result<Sql> {
    var resolved := Resolve(compiled.values, params);
    if resolved.Err? then Err(resolved.error)
    else if |resolved.value| != |compiled.values| then Err(InvalidQuery)
    else Ok(Template(compiled.strings, Binds(resolved.value)))
  }

  ghost predicate Names(values: seq<Value>, name: string) {
    exists i :: 0 <= i < |values| && values[i] == Placeholder(name)
  }

  /** The slot the values stop at: a placeholder without a value, every one
      before it having one. */
  ghost predicate StopsAt(slots: seq<Value>, params: Params, i: nat) {
    && i < |slots| && slots[i].Placeholder? && slots[i].name !in params
    && forall k :: 0 <= k < i && slots[k].Placeholder? ==> slots[k].name in params
  }

  lemma NamesShift(first: Value, rest: seq<Value>, name: string)
    ensures Names([first] + rest, name) <==> first == Placeholder(name) || Names(rest, name)
  {
    var all := [first] + rest;
    if first == Placeholder(name) { assert all[0] == Placeholder(name); }
    if i :| 0 <= i < |rest| && rest[i] == Placeholder(name) { assert all[i + 1] == Placeholder(name); }
    if i :| 0 <= i < |all| && all[i] == Placeholder(name) && i > 0 { assert rest[i - 1] == Placeholder(name); }
  }

  lemma StopShift(first: Value, rest: seq<Value>, params: Params, i: nat)
    requires StopsAt(rest, params, i) && (first.Placeholder? ==> first.name in params)
    ensures StopsAt([first] + rest, params, i + 1)
  {
    var all := [first] + rest;
    assert all[i + 1] == rest[i];
    forall k | 0 <= k < i + 1 && all[k].Placeholder? ensures all[k].name in params {
      if k > 0 { assert all[k] == rest[k - 1]; }
    }
  }

  lemma {:induction false} ResolveFails(slots: seq<Value>, params: Params) returns (i: nat)
    requires Resolve(slots, params).Err?
    ensures StopsAt(slots, params, i) && Resolve(slots, params).error == MissingPlaceholder(slots[i].name)
    decreases |slots|
  {
    if slots[0].Placeholder? && slots[0].name !in params {
      i := 0;
    } else {
      assert slots == [slots[0]] + slots[1..];
      var k := ResolveFails(slots[1..], params);
      StopShift(slots[0], slots[1..], params, k);
      i := k + 1;
    }
  }

  lemma {:induction false} ResolveSucceeds(slots: seq<Value>, params: Params)
    requires Resolve(slots, params).Ok?
    ensures Resolve(slots, params).value == FilledValues(params, slots)
    ensures forall name :: Names(slots, name) ==> name in params
    decreases |slots|
  {
    if slots != [] {
      var first, rest := slots[0], slots[1..];
      assert slots == [first] + rest;
      ResolveSucceeds(rest, params);
      FilledConcat(params, [first], rest);
      assert FilledValues(params, [first]) == [Filled(params, first)];
      forall name | Names(slots, name) ensures name in params { NamesShift(first, rest, name); }
    }
  }

  lemma ResolveFills(slots: seq<Value>, params: Params)
    ensures Resolve(slots, params).Ok? <==> forall name :: Names(slots, name) ==> name in params
    ensures Resolve(slots, params).Ok? ==> Resolve(slots, params).value == FilledValues(params, slots)
    ensures Resolve(slots, params).Ok? ==> FilledIn(params, slots, Resolve(slots, params).value)
    ensures Resolve(slots, params).Err? ==>
              exists i: nat :: StopsAt(slots, params, i) && Resolve(slots, params).error == MissingPlaceholder(slots[i].name)
  {
    if Resolve(slots, params).Ok? {
      ResolveSucceeds(slots, params);
    } else {
      var i := ResolveFails(slots, params);
      assert Names(slots, slots[i].name);
    }
  }

  /** Execution fails exactly when some placeholder has no value, naming the
      first, and otherwise runs the built statement with its values filled in. */
  lemma ExecuteFills(compiled: Sql, params: Params)
    ensures Execute(compiled, params).Ok? <==> forall name :: Names(compiled.values, name) ==> name in params
    ensures Execute(compiled, params).Ok? ==> Execute(compiled, params).value == FilledSql(params, compiled)
    ensures Execute(compiled, params).Ok? ==>
              Execute(compiled, params).value.strings == compiled.strings
              && FilledIn(params, compiled.values, Execute(compiled, params).value.values)
    ensures Execute(compiled, params).Err? ==>
              exists i: nat :: StopsAt(compiled.values, params, i)
                          && Execute(compiled, params).error == MissingPlaceholder(compiled.values[i].name)
  {
    ResolveFills(compiled.values, params);
    var resolved := Resolve(compiled.values, params);
    if resolved.Ok? { TemplateOfBinds(compiled.strings, resolved.value); }
  }

  // ----------------------------------------------- building with plain values

  function FilledTable(params: Params, t: Table): Table {
    match t
    case Named(_) => t
    case Derived(sql) => Derived(FilledSql(params, sql))
  }

  function FilledTables(params: Params, tables: seq<Table>): (r: seq<Table>)
    ensures |r| == |tables| && forall i :: 0 <= i < |r| ==> r[i] == FilledTable(params, tables[i])
  {
    seq(|tables|, i requires 0 <= i < |tables| => FilledTable(params, tables[i]))
  }

  function FilledCte(params: Params, c: Cte): Cte {
    c.(sql := FilledSql(params, c.sql))
  }

  function FilledCtes(params: Params, ctes: seq<Cte>): (r: seq<Cte>)
    ensures |r| == |ctes| && forall i :: 0 <= i < |r| ==> r[i] == FilledCte(params, ctes[i])
  {
    seq(|ctes|, i requires 0 <= i < |ctes| => FilledCte(params, ctes[i]))
  }

  /** The same call with plain values where it had placeholders. */
  function FilledCall(params: Params, call: Call): Call {
    match call
    case Select(_) => call
    case SelectFragments(fragments, distinct) => SelectFragments(FilledSqls(params, fragments), distinct)
    case From(table, alias) => From(FilledTable(params, table), alias)
    case Where(conditions) => Where(FilledSqls(params, conditions))
    case AndWhere(condition) => AndWhere(FilledSql(params, condition))
    case OrWhere(condition) => OrWhere(FilledSql(params, condition))
    case WhereIn(column, values) => WhereIn(column, FilledValues(params, values))
    case WhereNotIn(column, values) => WhereNotIn(column, FilledValues(params, values))
    case WhereNull(_) => call
    case WhereNotNull(_) => call
    case WhereBetween(column, min, max) => WhereBetween(column, Filled(params, min), Filled(params, max))
    case Join(kind, table, alias, condition) => Join(kind, FilledTable(params, table), alias, FilledSql(params, condition))
    case GroupBy(keys) => GroupBy(FilledTables(params, keys))
    case Having(conditions) => Having(FilledSqls(params, conditions))
    case Limit(offset, count) =>
      Limit(if offset.None? then None else Some(Filled(params, offset.value)), Filled(params, count))
    case Offset(skipped) => Offset(Filled(params, skipped))
    case AppendSql(sql) => AppendSql(FilledSql(params, sql))
    case With(cte) => With(FilledCte(params, cte))
    case AddSelectExpression(expr) => AddSelectExpression(FilledSql(params, expr))
  }

  function FilledCalls(params: Params, calls: seq<Call>): seq<Call> {
    if calls == [] then [] else [FilledCall(params, calls[0])] + FilledCalls(params, calls[1..])
  }

  function FilledBuilder(params: Params, b: Builder): Builder {
    Builder(b.dialect, FilledSqls(params, b.segments), b.hasWhere, FilledCtes(params, b.ctes), FilledSqls(params, b.extras))
  }
}
