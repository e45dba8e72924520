/** The builder and the compiled query as they run. */
module RawQueryBuilder {
  import opened Metadata
  import opened Positions
  import opened SqlFragments
  import opened RawQueries
  import opened RawQueryProofs
  import opened RawQueryText
  import opened RawQueryClauses

  class QueryBuilder {
    const dialect: Dialect
    var segments: seq<Sql>
    var hasWhereClause: bool
    var cteClauses: seq<Cte>
    var extraSelectExpressions: seq<Sql>

    ghost function Contents(): Builder
      reads this
    {
      Builder(dialect, segments, hasWhereClause, cteClauses, extraSelectExpressions)
    }

    constructor (dialect: Dialect)
      ensures Contents() == Create(dialect)
    {
      this.dialect := dialect;
      segments, hasWhereClause, cteClauses, extraSelectExpressions := [], false, [], [];
    }

    /** An empty column list is refused and changes nothing. */
    method Select(columns: seq<string>) returns (ok: bool)
      modifies this
      ensures ok <==> columns != []
      ensures ok ==> Grew(old(Contents()), Contents(), "SELECT " + Concat(columns, ", "), [], old(hasWhereClause))
      ensures ok ==> Ok(Contents()) == Apply(old(Contents()), Call.Select(columns))
      ensures !ok ==> Contents() == old(Contents()) && Apply(old(Contents()), Call.Select(columns)).Err?
    {
      if columns == [] { return false; }
      segments := segments + [Raw("SELECT " + Concat(columns, ", "))];
      return true;
    }

    method SelectFragments(fragments: seq<Sql>, distinct: bool) returns (ok: bool)
      modifies this
      ensures ok <==> fragments != []
      ensures ok ==> Grew(old(Contents()), Contents(),
                          (if distinct then "SELECT DISTINCT" else "SELECT") + " " + Concat(Texts(fragments), ", "),
                          AllValues(fragments), old(hasWhereClause))
      ensures ok ==> Ok(Contents()) == Apply(old(Contents()), Call.SelectFragments(fragments, distinct))
      ensures !ok ==> Contents() == old(Contents()) && Apply(old(Contents()), Call.SelectFragments(fragments, distinct)).Err?
    {
      if fragments == [] { return false; }
      var keyword := if distinct then "SELECT DISTINCT" else "SELECT";
      var list := SqlFragments.Join(Splices(fragments), ", ");
      SelectSays(fragments, keyword);
      segments := segments + [Template(["", " ", ""], [Spliced(Raw(keyword)), Spliced(list)])];
      return true;
    }

    method From(table: Table, alias: string)
      modifies this
      ensures Grew(old(Contents()), Contents(),
                   "FROM " + TableText(table) + (if alias == "" then "" else if table.Named? then " AS " + alias else " " + alias),
                   TableValues(table), old(hasWhereClause))
      ensures Ok(Contents()) == Apply(old(Contents()), Call.From(table, alias))
    {
      FromSays(table, alias);
      match table
      case Named(text) =>
        segments := segments + [Raw(if alias == "" then "FROM " + text else "FROM " + text + " AS " + alias)];
      case Derived(sql) =>
        if alias != "" {
          segments := segments + [Template(["FROM ", " ", ""], [Spliced(sql), Spliced(Raw(alias))])];
        } else {
          segments := segments + [Template(["FROM ", ""], [Spliced(sql)])];
        }
    }

    /** No conditions add no clause, so a later one still opens it. */
    method Where(conditions: seq<Sql>)
      modifies this
      ensures conditions == [] ==> Contents() == old(Contents())
      ensures conditions != [] ==>
                Grew(old(Contents()), Contents(), "WHERE " + Concat(Texts(conditions), " AND "), AllValues(conditions), true)
      ensures Ok(Contents()) == Apply(old(Contents()), Call.Where(conditions))
    {
      if conditions == [] { return; }
      var condition := if |conditions| == 1 then conditions[0] else SqlFragments.Join(Splices(conditions), " AND ");
      WhereSays(conditions);
      segments := segments + [Template(["WHERE ", ""], [Spliced(condition)])];
      hasWhereClause := true;
    }

    /** Does not tell the other conditions that there is one. */
    method AndWhere(condition: Sql)
      modifies this
      ensures Grew(old(Contents()), Contents(), "AND " + Text(condition), condition.values, old(hasWhereClause))
      ensures Ok(Contents()) == Apply(old(Contents()), Call.AndWhere(condition))
    {
      AfterKeyword("AND ", condition);
      segments := segments + [Template(["AND ", ""], [Spliced(condition)])];
    }

    method OrWhere(condition: Sql)
      modifies this
      ensures Grew(old(Contents()), Contents(), "OR " + Text(condition), condition.values, old(hasWhereClause))
      ensures Ok(Contents()) == Apply(old(Contents()), Call.OrWhere(condition))
    {
      AfterKeyword("OR ", condition);
      segments := segments + [Template(["OR ", ""], [Spliced(condition)])];
    }

    /** No value can be in an empty list. */
    method WhereIn(column: string, values: seq<Value>)
      modifies this
      ensures values == [] ==> Grew(old(Contents()), Contents(), Keyword(old(Contents())) + " 1=0", [], true)
      ensures values != [] ==> Grew(old(Contents()), Contents(),
                                    Keyword(old(Contents())) + " " + column + " IN (" + Marks(|values|) + ")", values, true)
      ensures Ok(Contents()) == Apply(old(Contents()), Call.WhereIn(column, values))
    {
      var keyword := if hasWhereClause then "AND" else "WHERE";
      if values == [] {
        segments := segments + [Raw(keyword + " 1=0")];
      } else {
        var list := SqlFragments.Join(Binds(values), ", ");
        ListSays(keyword, column, " IN (", values);
        segments := segments + [Template(["", " IN (", ")"], [Spliced(Raw(keyword + " " + column)), Spliced(list)])];
      }
      hasWhereClause := true;
    }

    /** Every value is outside an empty list. */
    method WhereNotIn(column: string, values: seq<Value>)
      modifies this
      ensures values == [] ==> Contents() == old(Contents())
      ensures values != [] ==> Grew(old(Contents()), Contents(),
                                    Keyword(old(Contents())) + " " + column + " NOT IN (" + Marks(|values|) + ")", values, true)
      ensures Ok(Contents()) == Apply(old(Contents()), Call.WhereNotIn(column, values))
    {
      if values == [] { return; }
      var keyword := if hasWhereClause then "AND" else "WHERE";
      var list := SqlFragments.Join(Binds(values), ", ");
      ListSays(keyword, column, " NOT IN (", values);
      segments := segments + [Template(["", " NOT IN (", ")"], [Spliced(Raw(keyword + " " + column)), Spliced(list)])];
      hasWhereClause := true;
    }

    method WhereNull(column: string)
      modifies this
      ensures Grew(old(Contents()), Contents(), Keyword(old(Contents())) + " " + column + " IS NULL", [], true)
      ensures Ok(Contents()) == Apply(old(Contents()), Call.WhereNull(column))
    {
      var keyword := if hasWhereClause then "AND" else "WHERE";
      segments := segments + [Raw(keyword + " " + column + " IS NULL")];
      hasWhereClause := true;
    }

    method WhereNotNull(column: string)
      modifies this
      ensures Grew(old(Contents()), Contents(), Keyword(old(Contents())) + " " + column + " IS NOT NULL", [], true)
      ensures Ok(Contents()) == Apply(old(Contents()), Call.WhereNotNull(column))
    {
      var keyword := if hasWhereClause then "AND" else "WHERE";
      segments := segments + [Raw(keyword + " " + column + " IS NOT NULL")];
      hasWhereClause := true;
    }

    method WhereBetween(column: string, min: Value, max: Value)
      modifies this
      ensures Grew(old(Contents()), Contents(), Keyword(old(Contents())) + " " + column + " BETWEEN ? AND ?", [min, max], true)
      ensures Ok(Contents()) == Apply(old(Contents()), Call.WhereBetween(column, min, max))
    {
      var keyword := if hasWhereClause then "AND" else "WHERE";
      BetweenSays(keyword, column, min, max);
      segments := segments + [Template(["", " BETWEEN ", " AND ", ""],
                                       [Spliced(Raw(keyword + " " + column)), Bound(min), Bound(max)])];
      hasWhereClause := true;
    }

    method Join(kind: string, table: Table, alias: string, condition: Sql)
      modifies this
      ensures Grew(old(Contents()), Contents(), JoinedText(kind, table, alias) + " ON " + Text(condition),
                   TableValues(table) + condition.values, old(hasWhereClause))
      ensures Ok(Contents()) == Apply(old(Contents()), Call.Join(kind, table, alias, condition))
    {
      JoinSays(kind, table, alias, condition);
      match table
      case Named(text) =>
        var head := if Includes(text, " AS " + alias) then kind + " JOIN " + text
                    else kind + " JOIN " + text + " AS " + alias;
        segments := segments + [Template(["", " ON ", ""], [Spliced(Raw(head)), Spliced(condition)])];
      case Derived(sql) =>
        if Includes(Text(sql), " AS " + alias) {
          segments := segments + [Template(["", " JOIN ", " ON ", ""], [Spliced(Raw(kind)), Spliced(sql), Spliced(condition)])];
        } else {
          segments := segments + [Template(["", " JOIN ", " AS ", " ON ", ""],
                                           [Spliced(Raw(kind)), Spliced(sql), Spliced(Raw(alias)), Spliced(condition)])];
        }
    }

    method GroupBy(keys: seq<Table>)
      modifies this
      ensures keys == [] ==> Contents() == old(Contents())
      ensures keys != [] ==> Grew(old(Contents()), Contents(), "GROUP BY " + Concat(TableTexts(keys), ", "), AllTableValues(keys),
                                  old(hasWhereClause))
      ensures Ok(Contents()) == Apply(old(Contents()), Call.GroupBy(keys))
    {
      if keys == [] { return; }
      GroupSays(keys);
      var names := AllNames(keys);
      if names.Some? {
        segments := segments + [Raw("GROUP BY " + Concat(names.value, ", "))];
      } else {
        segments := segments + [Template(["GROUP BY ", ""], [Spliced(SqlFragments.Join(TableArgs(keys), ", "))])];
      }
    }

    method Having(conditions: seq<Sql>)
      modifies this
      ensures conditions == [] ==> Contents() == old(Contents())
      ensures conditions != [] ==> Grew(old(Contents()), Contents(), "HAVING " + Concat(Texts(conditions), " AND "),
                                        AllValues(conditions), old(hasWhereClause))
      ensures Ok(Contents()) == Apply(old(Contents()), Call.Having(conditions))
    {
      if conditions == [] { return; }
      HavingSays(conditions);
      segments := segments + [Template(["HAVING ", ""], [Spliced(SqlFragments.Join(Splices(conditions), " AND "))])];
    }

    method Limit(offset: Option<Value>, count: Value)
      modifies this
      ensures Grew(old(Contents()), Contents(), LimitText(dialect, offset), LimitValues(dialect, offset, count),
                   old(hasWhereClause))
      ensures Ok(Contents()) == Apply(old(Contents()), Call.Limit(offset, count))
    {
      LimitSays(dialect, offset, count);
      var segment: Sql;
      if offset.None? {
        segment := Template(["LIMIT ", ""], [Bound(count)]);
      } else if dialect.MySql? {
        segment := Template(["LIMIT ", ", ", ""], [Bound(offset.value), Bound(count)]);
      } else {
        segment := Template(["LIMIT ", " OFFSET ", ""], [Bound(count), Bound(offset.value)]);
      }
      segments := segments + [segment];
    }

    method Offset(skipped: Value)
      modifies this
      ensures Grew(old(Contents()), Contents(), "OFFSET ?", [skipped], old(hasWhereClause))
      ensures Ok(Contents()) == Apply(old(Contents()), Call.Offset(skipped))
    {
      BoundSays("OFFSET ", skipped, "");
      assert "OFFSET " + "?" + "" == "OFFSET ?";
      segments := segments + [Template(["OFFSET ", ""], [Bound(skipped)])];
    }

    /** The fragment as it is; a condition in it is not noticed. */
    method AppendSql(sql: Sql)
      modifies this
      ensures Grew(old(Contents()), Contents(), Text(sql), sql.values, old(hasWhereClause))
      ensures AllValues(segments) == AllValues(old(segments)) + sql.values
      ensures Ok(Contents()) == Apply(old(Contents()), Call.AppendSql(sql))
    {
      assert (segments + [sql])[..|segments|] == segments;
      segments := segments + [sql];
    }

    /** The clause goes in front of the statement, after the ones before it. */
    method With(name: string, sql: Sql, recursive: bool)
      modifies this
      ensures segments == old(segments) && hasWhereClause == old(hasWhereClause)
      ensures CteTexts(cteClauses) == CteTexts(old(cteClauses)) + [name + " AS (" + Text(sql) + ")"]
      ensures CteValues(cteClauses) == CteValues(old(cteClauses)) + sql.values
      ensures AnyRecursive(cteClauses) <==> recursive || AnyRecursive(old(cteClauses))
      ensures Ok(Contents()) == Apply(old(Contents()), Call.With(Cte(name, sql, recursive)))
    {
      CteIsLast(cteClauses, Cte(name, sql, recursive));
      cteClauses := cteClauses + [Cte(name, sql, recursive)];
    }

    /** The expression goes into the first clause, after the ones before it. */
    method AddSelectExpression(expr: Sql)
      modifies this
      ensures segments == old(segments) && hasWhereClause == old(hasWhereClause)
      ensures Texts(extraSelectExpressions) == Texts(old(extraSelectExpressions)) + [Text(expr)]
      ensures AllValues(extraSelectExpressions) == AllValues(old(extraSelectExpressions)) + expr.values
      ensures Ok(Contents()) == Apply(old(Contents()), Call.AddSelectExpression(expr))
    {
      assert (extraSelectExpressions + [expr])[..|extraSelectExpressions|] == extraSelectExpressions;
      extraSelectExpressions := extraSelectExpressions + [expr];
    }

    /** CTEs, then the clauses in call order, one space apart; the values in the
        order their marks appear. */
    method Build() returns (built: Result<Sql>)
      ensures built.Ok? <==> cteClauses != [] || segments != []
      ensures built.Err? ==> built == Err(NothingToJoin)
      ensures built.Ok? ==>
                Text(built.value) == Concat(FrontTexts(cteClauses) + BodyTexts(segments, extraSelectExpressions), " ")
      ensures built.Ok? ==>
                built.value.values
                == CteValues(cteClauses)
                   + (if extraSelectExpressions == [] || segments == [] then AllValues(segments)
                      else segments[0].values + AllValues(extraSelectExpressions) + AllValues(segments[1..]))
      ensures built == RawQueries.Build(Contents())
    {
      var front: seq<Sql> := [];
      if cteClauses != [] { front := [WithSegment(cteClauses)]; }
      var body := segments;
      if extraSelectExpressions != [] && segments != [] {
        body := [SelectSegment(segments[0], extraSelectExpressions)] + segments[1..];
      }
      assert front == Front(cteClauses) && body == Body(segments, extraSelectExpressions);
      var all := front + body;
      if all == [] { return Err(NothingToJoin); }
      BuildReads(Contents());
      BuildKeepsValues(Contents());
      return Ok(SqlFragments.Join(Splices(all), " "));
    }

    /** Compiles the query once; what each execution runs is what building with
        plain values would have produced. */
    method Prepare() returns (compiled: Result<Compiled>)
      ensures compiled.Ok? <==> RawQueries.Build(Contents()).Ok?
      ensures compiled.Ok? ==> compiled.value.Valid() && compiled.value.Query() == RawQueries.Build(Contents()).value
    {
      var built := Build();
      if built.Err? { return Err(built.error); }
      var query := new Compiled(built.value);
      return Ok(query);
    }
  }

  lemma CteIsLast(ctes: seq<Cte>, cte: Cte)
    ensures CteTexts(ctes + [cte]) == CteTexts(ctes) + [cte.name + " AS (" + Text(cte.sql) + ")"]
    ensures CteValues(ctes + [cte]) == CteValues(ctes) + cte.sql.values
    ensures AnyRecursive(ctes + [cte]) <==> cte.recursive || AnyRecursive(ctes)
  {
    var more := ctes + [cte];
    assert more[..|ctes|] == ctes;
    if AnyRecursive(ctes) {
      var i :| 0 <= i < |ctes| && ctes[i].recursive;
      assert more[i].recursive;
    }
    if cte.recursive { assert more[|ctes|].recursive; }
  }

  /** Each placeholder name of `values`, once, where it first occurs. */
  function Placeholders(values: seq<Value>): seq<string> {
    if values == [] then []
    else
      var before, last := Placeholders(values[..|values| - 1]), values[|values| - 1];
      if last.Placeholder? && last.name !in before then before + [last.name] else before
  }

  lemma NamesGrow(before: seq<Value>, last: Value, name: string)
    ensures Names(before + [last], name) <==> Names(before, name) || last == Placeholder(name)
  {
    var values := before + [last];
    if i :| 0 <= i < |before| && before[i] == Placeholder(name) { assert values[i] == Placeholder(name); }
    if last == Placeholder(name) { assert values[|before|] == Placeholder(name); }
  }

  lemma {:induction false} PlaceholdersOnce(values: seq<Value>)
    ensures forall i, j :: 0 <= i < j < |Placeholders(values)| ==> Placeholders(values)[i] != Placeholders(values)[j]
  {
    if values != [] { PlaceholdersOnce(values[..|values| - 1]); }
  }

  lemma {:induction false} PlaceholdersNamed(values: seq<Value>, name: string)
    ensures name in Placeholders(values) <==> Names(values, name)
  {
    if values != [] {
      var before, last := values[..|values| - 1], values[|values| - 1];
      PlaceholdersNamed(before, name);
      assert values == before + [last];
      NamesGrow(before, last, name);
    }
  }

  lemma PlaceholdersAreNames(values: seq<Value>, name: string)
    ensures name in Placeholders(values) <==> Names(values, name)
    ensures forall i, j :: 0 <= i < j < |Placeholders(values)| ==> Placeholders(values)[i] != Placeholders(values)[j]
  {
    PlaceholdersNamed(values, name);
    PlaceholdersOnce(values);
  }

  /** The placeholder first stands at `k`. */
  ghost predicate FirstAt(values: seq<Value>, name: string, k: nat) {
    k < |values| && values[k] == Placeholder(name) && forall j :: 0 <= j < k ==> values[j] != Placeholder(name)
  }

  ghost predicate FirstAts(values: seq<Value>, names: seq<string>, at: seq<nat>) {
    |at| == |names| && Rising(at) && forall i :: 0 <= i < |at| ==> FirstAt(values, names[i], at[i])
  }

  lemma FirstStays(front: seq<Value>, last: Value, names: seq<string>, at: seq<nat>)
    requires FirstAts(front, names, at)
    ensures FirstAts(front + [last], names, at)
    ensures last.Placeholder? && !Names(front, last.name) ==> FirstAts(front + [last], names + [last.name], at + [|front|])
  {
    var values := front + [last];
    forall i | 0 <= i < |at| ensures FirstAt(values, names[i], at[i]) { assert FirstAt(front, names[i], at[i]); }
    if last.Placeholder? && !Names(front, last.name) {
      forall j | 0 <= j < |front| ensures values[j] != Placeholder(last.name) { assert front[j] != Placeholder(last.name); }
      assert FirstAt(values, last.name, |front|);
      forall i | 0 <= i < |at| ensures at[i] < |front| { assert FirstAt(front, names[i], at[i]); }
    }
  }

  /** The names come in the order their placeholders first occur. */
  lemma {:induction false} PlaceholdersInOrder(values: seq<Value>) returns (at: seq<nat>)
    ensures FirstAts(values, Placeholders(values), at)
  {
    if values == [] {
      at := [];
    } else {
      var front, last := values[..|values| - 1], values[|values| - 1];
      assert values == front + [last];
      at := PlaceholdersInOrder(front);
      FirstStays(front, last, Placeholders(front), at);
      if last.Placeholder? {
        PlaceholdersNamed(front, last.name);
        if last.name !in Placeholders(front) { at := at + [|front|]; }
      }
    }
  }

  function After(out: seq<Value>, rest: Result<seq<Value>>): Result<seq<Value>> {
    if rest.Err? then rest else Ok(out + rest.value)
  }

  lemma AfterNone(out: seq<Value>, rest: Result<seq<Value>>)
    ensures out == [] ==> After(out, rest) == rest
    ensures After(out, Ok([])) == Ok(out)
  {
    assert out + [] == out;
    if out == [] && rest.Ok? { assert out + rest.value == rest.value; }
  }

  lemma AfterOne(out: seq<Value>, v: Value, rest: Result<seq<Value>>)
    ensures After(out, After([v], rest)) == After(out + [v], rest)
  {
    if rest.Ok? { assert out + ([v] + rest.value) == (out + [v]) + rest.value; }
  }

  /** The first `i` slots are resolved into `out`. */
  ghost predicate Resolving(slots: seq<Value>, params: Params, i: nat, out: seq<Value>) {
    i <= |slots| && Resolve(slots, params) == After(out, Resolve(slots[i..], params))
  }

  lemma ResolveStarts(slots: seq<Value>, params: Params)
    ensures Resolving(slots, params, 0, [])
  {
    assert slots[0..] == slots;
    AfterNone([], Resolve(slots, params));
  }

  /** One slot more. */
  lemma ResolveNext(slots: seq<Value>, params: Params, i: nat, out: seq<Value>)
    requires i < |slots| && Resolving(slots, params, i, out)
    ensures if slots[i].Placeholder? && slots[i].name !in params then
              Resolve(slots, params) == Err(MissingPlaceholder(slots[i].name))
            else Resolving(slots, params, i + 1, out + [if slots[i].Placeholder? then params[slots[i].name] else slots[i]])
  {
    assert slots[i..][1..] == slots[i + 1..];
    AfterOne(out, Filled(params, slots[i]), Resolve(slots[i + 1..], params));
  }

  lemma ResolveEnds(slots: seq<Value>, params: Params, out: seq<Value>)
    requires Resolving(slots, params, |slots|, out)
    ensures Resolve(slots, params) == Ok(out)
  {
    assert slots[|slots|..] == [];
    AfterNone(out, Ok([]));
  }

  class Compiled {
    const strings: seq<string>
    const valueSlots: seq<Value>
    var placeholderNames: seq<string>

    ghost predicate Valid() {
      |strings| == |valueSlots| + 1
    }

    ghost function Query(): Sql
      requires Valid()
    {
      Fragment(strings, valueSlots)
    }

    constructor (built: Sql)
      ensures strings == built.strings && valueSlots == built.values
      ensures placeholderNames == Placeholders(built.values)
    {
      strings := built.strings;
      valueSlots := built.values;
      var names: seq<string> := [];
      for i := 0 to |built.values|
        invariant names == Placeholders(built.values[..i])
      {
        assert built.values[..i + 1][..i] == built.values[..i];
        var slot := built.values[i];
        if slot.Placeholder? && slot.name !in names { names := names + [slot.name]; }
      }
      assert built.values[..|built.values|] == built.values;
      placeholderNames := names;
    }

    /** The slots with each placeholder replaced; stops at the first one the
        parameters do not hold. */
    method ResolveValues(params: Params) returns (resolved: Result<seq<Value>>)
      ensures resolved == Resolve(valueSlots, params)
      ensures resolved.Ok? ==> FilledIn(params, valueSlots, resolved.value)
      ensures resolved.Err? ==>
                exists i: nat :: StopsAt(valueSlots, params, i) && resolved.error == MissingPlaceholder(valueSlots[i].name)
    {
      ResolveFills(valueSlots, params);
      var out: seq<Value> := [];
      ResolveStarts(valueSlots, params);
      for i := 0 to |valueSlots|
        invariant Resolving(valueSlots, params, i, out)
      {
        var slot := valueSlots[i];
        ResolveNext(valueSlots, params, i, out);
        if slot.Placeholder? && slot.name !in params { return Err(MissingPlaceholder(slot.name)); }
        out := out + [if slot.Placeholder? then params[slot.name] else slot];
      }
      ResolveEnds(valueSlots, params, out);
      return Ok(out);
    }

    /** The statement one execution runs. */
    method Execute(params: Params) returns (sql: Result<Sql>)
      requires Valid()
      ensures sql == RawQueries.Execute(Query(), params)
      ensures sql.Ok? <==> forall name :: Names(valueSlots, name) ==> name in params
      ensures sql.Ok? ==> sql.value.strings == strings && FilledIn(params, valueSlots, sql.value.values)
    {
      ExecuteFills(Query(), params);
      ResolveFills(valueSlots, params);
      var resolved := ResolveValues(params);
      if resolved.Err? { return Err(resolved.error); }
      return Ok(Template(strings, Binds(resolved.value)));
    }
  }
}
