/** The clause each call of the builder adds: how it reads, and the values it
    binds in order. */
module RawQueryClauses {
  import opened Metadata
  import opened SqlFragments
  import opened RawQueries
  import opened RawQueryProofs
  import opened RawQueryText

  function Texts(sqls: seq<Sql>): (texts: seq<string>)
    ensures |texts| == |sqls| && forall i :: 0 <= i < |sqls| ==> texts[i] == Text(sqls[i])
  {
    seq(|sqls|, i requires 0 <= i < |sqls| => Text(sqls[i]))
  }

  function ArgTexts(args: seq<Arg>): (texts: seq<string>)
    ensures |texts| == |args| && forall i :: 0 <= i < |args| ==> texts[i] == ArgText(args[i])
  {
    seq(|args|, i requires 0 <= i < |args| => ArgText(args[i]))
  }

  function TableText(table: Table): string {
    match table
    case Named(text) => text
    case Derived(sql) => Text(sql)
  }

  function TableValues(table: Table): seq<Value> {
    if table.Derived? then table.sql.values else []
  }

  function TableTexts(tables: seq<Table>): (texts: seq<string>)
    ensures |texts| == |tables| && forall i :: 0 <= i < |tables| ==> texts[i] == TableText(tables[i])
  {
    seq(|tables|, i requires 0 <= i < |tables| => TableText(tables[i]))
  }

  function AllTableValues(tables: seq<Table>): seq<Value> {
    if tables == [] then [] else AllTableValues(tables[..|tables| - 1]) + TableValues(tables[|tables| - 1])
  }

  // ------------------------------------------------------------------- lists

  lemma ConcatGrows(texts: seq<string>, last: string, separator: string)
    requires texts != []
    ensures Concat(texts + [last], separator) == Concat(texts, separator) + separator + last
  {
    ConcatAppend(texts, [last], separator);
  }

  /** The first `k` arguments of a list, before the closing chunk. */
  lemma {:induction false} ListUpTo(args: seq<Arg>, separator: string, k: nat)
    requires 0 < k <= |args|
    ensures var head := [""] + Repeat(separator, k - 1);
            Interleaved(head + [""], args[..k]) == Concat(ArgTexts(args)[..k], separator)
  {
    var head, front := [""] + Repeat(separator, k - 1), args[..k];
    assert (head + [""])[..k] == head && front[..k - 1] == args[..k - 1];
    if k == 1 {
      assert Interleaved([""], []) == "" && head == [""] && front[..0] == [];
      assert ArgTexts(args)[..1] == [ArgText(args[0])];
    } else {
      ListUpTo(args, separator, k - 1);
      var before := [""] + Repeat(separator, k - 2);
      assert head == before + [separator];
      assert "" + separator == separator;
      SameButLast(before, "", separator, front[..k - 1]);
      assert ArgTexts(args)[..k] == ArgTexts(args)[..k - 1] + [ArgText(args[k - 1])];
      ConcatGrows(ArgTexts(args)[..k - 1], ArgText(args[k - 1]), separator);
    }
  }

  /** A joined list reads as its members with the separator between them. */
  lemma ListReads(args: seq<Arg>, separator: string)
    requires args != []
    ensures Text(SqlFragments.Join(args, separator)) == Concat(ArgTexts(args), separator)
    ensures SqlFragments.Join(args, separator).values == ArgValues(args)
  {
    var n := |args|;
    var strings := [""] + Repeat(separator, n - 1) + [""];
    TextOfTemplate(strings, args);
    TemplateKeepsValues(strings, args);
    ListUpTo(args, separator, n);
    assert args[..n] == args && ArgTexts(args)[..n] == ArgTexts(args);
  }

  lemma SqlsRead(sqls: seq<Sql>, separator: string)
    requires sqls != []
    ensures Text(SqlFragments.Join(Splices(sqls), separator)) == Concat(Texts(sqls), separator)
    ensures SqlFragments.Join(Splices(sqls), separator).values == AllValues(sqls)
  {
    ListReads(Splices(sqls), separator);
    SplicesKeepValues(sqls);
    assert ArgTexts(Splices(sqls)) == Texts(sqls);
  }

  lemma {:induction false} TablesKeepValues(tables: seq<Table>)
    ensures ArgValues(TableArgs(tables)) == AllTableValues(tables)
  {
    if tables != [] {
      TablesKeepValues(tables[..|tables| - 1]);
      assert TableArgs(tables)[..|tables| - 1] == TableArgs(tables[..|tables| - 1]);
    }
  }

  lemma TablesRead(tables: seq<Table>, separator: string)
    requires tables != []
    ensures Text(SqlFragments.Join(TableArgs(tables), separator)) == Concat(TableTexts(tables), separator)
    ensures SqlFragments.Join(TableArgs(tables), separator).values == AllTableValues(tables)
  {
    ListReads(TableArgs(tables), separator);
    TablesKeepValues(tables);
    assert ArgTexts(TableArgs(tables)) == TableTexts(tables);
  }

  lemma NamesAreTexts(tables: seq<Table>)
    ensures AllNames(tables).Some? ==> AllNames(tables).value == TableTexts(tables) && AllTableValues(tables) == []
  {
    if AllNames(tables).Some? {
      AllNamed(tables);
      NamesInOrder(tables);
      NamedBindNothing(tables);
    }
  }

  lemma {:induction false} NamesInOrder(tables: seq<Table>)
    requires AllNames(tables).Some?
    ensures AllNames(tables).value == TableTexts(tables)
    decreases |tables|
  {
    if tables != [] {
      NamesInOrder(tables[1..]);
      assert TableTexts(tables) == [tables[0].text] + TableTexts(tables[1..]);
    }
  }

  lemma {:induction false} AllNamed(tables: seq<Table>)
    requires AllNames(tables).Some?
    ensures forall t :: t in tables ==> t.Named?
  {
    if tables != [] {
      AllNamed(tables[1..]);
      assert tables == [tables[0]] + tables[1..];
    }
  }

  lemma {:induction false} NamedBindNothing(tables: seq<Table>)
    requires forall t :: t in tables ==> t.Named?
    ensures AllTableValues(tables) == []
  {
    if tables != [] {
      assert tables[|tables| - 1] in tables;
      NamedBindNothing(tables[..|tables| - 1]);
    }
  }

  // ---------------------------------------------------------- short templates

  lemma TextOfRaw(text: string)
    ensures Text(Raw(text)) == text
  {}

  lemma OneReads(s0: string, a: Arg, s1: string)
    ensures Text(Template([s0, s1], [a])) == s0 + ArgText(a) + s1
    ensures Template([s0, s1], [a]).values == ArgValues([a])
  {
    TextOfTemplate([s0, s1], [a]);
    TextOfOne(s0, a, s1);
    TemplateKeepsValues([s0, s1], [a]);
  }

  lemma OneArg(a: Arg)
    ensures ArgValues([a]) == if a.Bound? then [a.value] else a.sql.values
  {
    var own := if a.Bound? then [a.value] else a.sql.values;
    assert [a][..0] == [];
    assert ArgValues([a]) == ArgValues([a][..0]) + own == [] + own == own;
  }

  lemma ThreeRead(s0: string, a: Arg, s1: string, b: Arg, s2: string, c: Arg, s3: string)
    ensures Text(Template([s0, s1, s2, s3], [a, b, c])) == s0 + ArgText(a) + s1 + ArgText(b) + s2 + ArgText(c) + s3
    ensures Template([s0, s1, s2, s3], [a, b, c]).values == ArgValues([a]) + ArgValues([b]) + ArgValues([c])
  {
    assert [s0, s1, s2, s3][..3] == [s0, s1, s2] && [a, b, c][..2] == [a, b];
    TextOfTwo(s0, a, s1, b, s2);
    TextOfExtend(Template([s0, s1, s2], [a, b]), c, s3);
    OneArg(c);
  }

  lemma FourRead(s0: string, a: Arg, s1: string, b: Arg, s2: string, c: Arg, s3: string, d: Arg, s4: string)
    ensures Text(Template([s0, s1, s2, s3, s4], [a, b, c, d]))
            == s0 + ArgText(a) + s1 + ArgText(b) + s2 + ArgText(c) + s3 + ArgText(d) + s4
  {
    assert [s0, s1, s2, s3, s4][..4] == [s0, s1, s2, s3] && [a, b, c, d][..3] == [a, b, c];
    ThreeRead(s0, a, s1, b, s2, c, s3);
    TextOfExtend(Template([s0, s1, s2, s3], [a, b, c]), d, s4);
  }

  // ----------------------------------------------------------------- clauses

  /** A segment that reads so and binds so. */
  ghost predicate Says(sql: Sql, text: string, values: seq<Value>) {
    Text(sql) == text && sql.values == values
  }

  /** One clause more, and nothing else but perhaps the flag. */
  ghost predicate Grew(b: Builder, b': Builder, text: string, values: seq<Value>, hasWhere: bool) {
    && |b'.segments| == |b.segments| + 1 && b'.segments[..|b.segments|] == b.segments
    && Says(b'.segments[|b.segments|], text, values)
    && b'.hasWhere == hasWhere && b'.dialect == b.dialect && b'.ctes == b.ctes && b'.extras == b.extras
  }

  lemma SpliceSays(s0: string, sql: Sql, s1: string)
    ensures Says(Template([s0, s1], [Spliced(sql)]), s0 + Text(sql) + s1, sql.values)
  {
    OneReads(s0, Spliced(sql), s1);
    OneArg(Spliced(sql));
  }

  lemma BoundSays(s0: string, v: Value, s1: string)
    ensures Says(Template([s0, s1], [Bound(v)]), s0 + "?" + s1, [v])
  {
    OneReads(s0, Bound(v), s1);
    OneArg(Bound(v));
  }

  lemma AfterKeyword(keyword: string, sql: Sql)
    ensures Says(Template([keyword, ""], [Spliced(sql)]), keyword + Text(sql), sql.values)
  {
    SpliceSays(keyword, sql, "");
    assert keyword + Text(sql) + "" == keyword + Text(sql);
  }

  lemma SelectSays(fragments: seq<Sql>, keyword: string)
    requires fragments != []
    ensures Says(Template(["", " ", ""], [Spliced(Raw(keyword)), Spliced(SqlFragments.Join(Splices(fragments), ", "))]),
                 keyword + " " + Concat(Texts(fragments), ", "), AllValues(fragments))
  {
    var list := SqlFragments.Join(Splices(fragments), ", ");
    SqlsRead(fragments, ", ");
    TextOfTwo("", Spliced(Raw(keyword)), " ", Spliced(list), "");
    TextOfRaw(keyword);
    OneArg(Spliced(Raw(keyword)));
    OneArg(Spliced(list));
    Between(keyword, " ", Text(list));
  }

  lemma Between(a: string, b: string, c: string)
    ensures "" + a + b + c + "" == a + b + c
  {}

  lemma BareSays(head: string)
    ensures Says(Raw(head), head + "", [])
  {
    TextOfRaw(head);
  }

  lemma AliasSays(head: string, link: string, alias: string)
    ensures Says(Raw(head + link + alias), head + (link + alias), [])
  {
    TextOfRaw(head + link + alias);
  }

  lemma SubqueryAliasSays(head: string, sql: Sql, link: string, alias: string)
    ensures Says(Template([head, link, ""], [Spliced(sql), Spliced(Raw(alias))]), head + Text(sql) + (link + alias), sql.values)
  {
    TextOfTwo(head, Spliced(sql), link, Spliced(Raw(alias)), "");
    TextOfRaw(alias);
    OneArg(Spliced(sql));
    OneArg(Spliced(Raw(alias)));
    Trailing(head, Text(sql), link, alias);
  }

  lemma Trailing(a: string, b: string, c: string, d: string)
    ensures a + b + c + d + "" == a + b + (c + d)
  {}

  /** A name takes its alias with AS, a subquery without. */
  lemma FromSays(table: Table, alias: string)
    ensures Says(FromSegment(table, alias),
                 "FROM " + TableText(table) + (if alias == "" then "" else if table.Named? then " AS " + alias else " " + alias),
                 TableValues(table))
  {
    match table
    case Named(text) =>
      if alias == "" { BareSays("FROM " + text); } else { AliasSays("FROM " + text, " AS ", alias); }
    case Derived(sql) =>
      if alias == "" { SpliceSays("FROM ", sql, ""); } else { SubqueryAliasSays("FROM ", sql, " ", alias); }
  }

  /** One condition is used as it is, several are joined with AND. */
  lemma WhereSays(conditions: seq<Sql>)
    requires conditions != []
    ensures Says(Template(["WHERE ", ""], [Spliced(if |conditions| == 1 then conditions[0]
                                                   else SqlFragments.Join(Splices(conditions), " AND "))]),
                 "WHERE " + Concat(Texts(conditions), " AND "), AllValues(conditions))
  {
    if |conditions| == 1 {
      AfterKeyword("WHERE ", conditions[0]);
      assert Texts(conditions) == [Text(conditions[0])];
      assert conditions[..0] == [] && AllValues(conditions) == [] + conditions[0].values;
    } else {
      SqlsRead(conditions, " AND ");
      AfterKeyword("WHERE ", SqlFragments.Join(Splices(conditions), " AND "));
    }
  }

  lemma HavingSays(conditions: seq<Sql>)
    requires conditions != []
    ensures Says(Template(["HAVING ", ""], [Spliced(SqlFragments.Join(Splices(conditions), " AND "))]),
                 "HAVING " + Concat(Texts(conditions), " AND "), AllValues(conditions))
  {
    SqlsRead(conditions, " AND ");
    AfterKeyword("HAVING ", SqlFragments.Join(Splices(conditions), " AND "));
  }

  lemma BetweenSays(keyword: string, column: string, min: Value, max: Value)
    ensures Says(Template(["", " BETWEEN ", " AND ", ""], [Spliced(Raw(keyword + " " + column)), Bound(min), Bound(max)]),
                 keyword + " " + column + " BETWEEN ? AND ?", [min, max])
  {
    var head := Raw(keyword + " " + column);
    ThreeRead("", Spliced(head), " BETWEEN ", Bound(min), " AND ", Bound(max), "");
    TextOfRaw(keyword + " " + column);
    OneArg(Spliced(head));
    OneArg(Bound(min));
    OneArg(Bound(max));
    Glued(keyword + " " + column, " BETWEEN ", "?", " AND ", "?");
    assert " BETWEEN " + "?" + " AND " + "?" == " BETWEEN ? AND ?";
  }

  lemma Glued(a: string, b: string, c: string, d: string, e: string)
    ensures "" + a + b + c + d + e + "" == a + (b + c + d + e)
  {}

  lemma ListSays(keyword: string, column: string, operator: string, values: seq<Value>)
    requires values != []
    ensures Says(ListSegment(keyword, column, operator, values),
                 keyword + " " + column + operator + Marks(|values|) + ")", values)
  {
    ListIs(keyword, column, operator, values);
  }

  /** The part stands at position `i` of the text. */
  ghost predicate OccursAt(text: string, part: string, i: nat) {
    i + |part| <= |text| && text[i..i + |part|] == part
  }

  /** `includes`: the part stands somewhere in the text. */
  lemma {:induction false} IncludesIff(text: string, part: string)
    ensures Includes(text, part) <==> exists i: nat :: OccursAt(text, part, i)
  {
    if |part| <= |text| && text[..|part|] == part {
      assert OccursAt(text, part, 0);
    } else if text != "" {
      IncludesIff(text[1..], part);
      forall i: nat ensures i > 0 ==> (OccursAt(text, part, i) <==> OccursAt(text[1..], part, i - 1)) {
        if i > 0 && i + |part| <= |text| { assert text[1..][i - 1..i - 1 + |part|] == text[i..i + |part|]; }
      }
      if i: nat :| OccursAt(text[1..], part, i) { assert OccursAt(text, part, i + 1); }
    }
  }

  /** The alias is added unless the table's own text already has it. */
  function JoinedText(kind: string, table: Table, alias: string): string {
    kind + " JOIN " + TableText(table) + if Includes(TableText(table), " AS " + alias) then "" else " AS " + alias
  }

  lemma JoinSays(kind: string, table: Table, alias: string, condition: Sql)
    ensures Says(JoinSegment(kind, table, alias, condition),
                 JoinedText(kind, table, alias) + " ON " + Text(condition), TableValues(table) + condition.values)
  {
    JoinBinds(kind, table, alias, condition);
    match table
    case Named(text) =>
      var head := if Includes(text, " AS " + alias) then kind + " JOIN " + text else kind + " JOIN " + text + " AS " + alias;
      NamedJoinReads(head, condition);
      assert head == JoinedText(kind, table, alias) by {
        assert kind + " JOIN " + text + "" == kind + " JOIN " + text;
        assert kind + " JOIN " + text + (" AS " + alias) == kind + " JOIN " + text + " AS " + alias;
      }
    case Derived(sql) => DerivedJoinReads(kind, sql, alias, condition);
  }

  lemma NamedJoinReads(head: string, condition: Sql)
    ensures Text(Template(["", " ON ", ""], [Spliced(Raw(head)), Spliced(condition)])) == head + " ON " + Text(condition)
  {
    TextOfTwo("", Spliced(Raw(head)), " ON ", Spliced(condition), "");
    TextOfRaw(head);
    Between(head, " ON ", Text(condition));
  }

  lemma Ungrouped(a: string, b: string, c: string, d: string, e: string)
    ensures "" + a + b + c + d + e + "" == (a + b + c + "") + d + e
  {}

  lemma Grouped(a: string, b: string, c: string, d: string, e: string, f: string, h: string)
    ensures "" + a + b + c + d + e + f + h + "" == (a + b + c + (d + e)) + f + h
  {}

  lemma DerivedJoinReads(kind: string, sql: Sql, alias: string, condition: Sql)
    ensures Text(JoinSegment(kind, Derived(sql), alias, condition))
            == JoinedText(kind, Derived(sql), alias) + " ON " + Text(condition)
  {
    var k, c := Spliced(Raw(kind)), Spliced(condition);
    TextOfRaw(kind);
    TextOfRaw(alias);
    if Includes(Text(sql), " AS " + alias) {
      ThreeRead("", k, " JOIN ", Spliced(sql), " ON ", c, "");
      Ungrouped(kind, " JOIN ", Text(sql), " ON ", Text(condition));
    } else {
      FourRead("", k, " JOIN ", Spliced(sql), " AS ", Spliced(Raw(alias)), " ON ", c, "");
      Grouped(kind, " JOIN ", Text(sql), " AS ", alias, " ON ", Text(condition));
    }
  }

  function GroupSegment(keys: seq<Table>): Sql
    requires keys != []
  {
    if AllNames(keys).Some? then Raw("GROUP BY " + Concat(AllNames(keys).value, ", "))
    else Template(["GROUP BY ", ""], [Spliced(SqlFragments.Join(TableArgs(keys), ", "))])
  }

  lemma GroupSays(keys: seq<Table>)
    requires keys != []
    ensures Says(GroupSegment(keys), "GROUP BY " + Concat(TableTexts(keys), ", "), AllTableValues(keys))
  {
    if AllNames(keys).Some? {
      NamesAreTexts(keys);
      TextOfRaw("GROUP BY " + Concat(TableTexts(keys), ", "));
    } else {
      TablesRead(keys, ", ");
      AfterKeyword("GROUP BY ", SqlFragments.Join(TableArgs(keys), ", "));
    }
  }

  function LimitText(dialect: Dialect, offset: Option<Value>): string {
    if offset.None? then "LIMIT ?" else if dialect.MySql? then "LIMIT ?, ?" else "LIMIT ? OFFSET ?"
  }

  /** MySQL takes the offset first, the other dialects the count. */
  function LimitValues(dialect: Dialect, offset: Option<Value>, count: Value): seq<Value> {
    if offset.None? then [count] else if dialect.MySql? then [offset.value, count] else [count, offset.value]
  }

  lemma LimitSays(dialect: Dialect, offset: Option<Value>, count: Value)
    ensures Says(LimitSegment(dialect, offset, count), LimitText(dialect, offset), LimitValues(dialect, offset, count))
  {
    if offset.None? {
      BoundSays("LIMIT ", count, "");
      assert "LIMIT " + "?" + "" == "LIMIT ?";
    } else {
      LimitIs(dialect, offset.value, count);
    }
  }

  // ------------------------------------------------------------ the statement

  function CteTexts(ctes: seq<Cte>): (texts: seq<string>)
    ensures |texts| == |ctes|
    ensures forall i :: 0 <= i < |ctes| ==> texts[i] == ctes[i].name + " AS (" + Text(ctes[i].sql) + ")"
  {
    seq(|ctes|, i requires 0 <= i < |ctes| => ctes[i].name + " AS (" + Text(ctes[i].sql) + ")")
  }

  function FrontTexts(ctes: seq<Cte>): seq<string> {
    if ctes == [] then []
    else [(if AnyRecursive(ctes) then "WITH RECURSIVE" else "WITH") + " " + Concat(CteTexts(ctes), ", ")]
  }

  function BodyTexts(segments: seq<Sql>, extras: seq<Sql>): seq<string> {
    if extras == [] || segments == [] then Texts(segments)
    else [Text(segments[0]) + ", " + Concat(Texts(extras), ", ")] + Texts(segments[1..])
  }

  lemma CteReads(cte: Cte)
    ensures Text(CteSql(cte)) == cte.name + " AS (" + Text(cte.sql) + ")"
  {
    TextOfTwo("", Spliced(Raw(cte.name)), " AS (", Spliced(cte.sql), ")");
    TextOfRaw(cte.name);
    assert "" + cte.name + " AS (" + Text(cte.sql) + ")" == cte.name + " AS (" + Text(cte.sql) + ")";
  }

  lemma FrontReads(ctes: seq<Cte>)
    ensures Texts(Front(ctes)) == FrontTexts(ctes)
  {
    if ctes != [] {
      var keyword := if AnyRecursive(ctes) then "WITH RECURSIVE" else "WITH";
      forall i | 0 <= i < |ctes| ensures Texts(CteSqls(ctes))[i] == CteTexts(ctes)[i] { CteReads(ctes[i]); }
      assert Texts(CteSqls(ctes)) == CteTexts(ctes);
      SelectSays(CteSqls(ctes), keyword);
    }
  }

  lemma TextsCons(first: Sql, rest: seq<Sql>)
    ensures Texts([first] + rest) == [Text(first)] + Texts(rest)
  {}

  lemma BodyReads(segments: seq<Sql>, extras: seq<Sql>)
    ensures Texts(Body(segments, extras)) == BodyTexts(segments, extras)
  {
    if segments != [] && extras != [] {
      var list := SqlFragments.Join(Splices(extras), ", ");
      SqlsRead(extras, ", ");
      TextOfTwo("", Spliced(segments[0]), ", ", Spliced(list), "");
      Between(Text(segments[0]), ", ", Text(list));
      TextsCons(SelectSegment(segments[0], extras), segments[1..]);
    }
  }

  lemma TextsConcat(a: seq<Sql>, b: seq<Sql>)
    ensures Texts(a + b) == Texts(a) + Texts(b)
  {}

  /** The statement reads as the CTEs and the clauses in call order, one space
      apart, the extra columns after the first clause. */
  lemma BuildReads(b: Builder)
    requires Build(b).Ok?
    ensures Text(Build(b).value) == Concat(FrontTexts(b.ctes) + BodyTexts(b.segments, b.extras), " ")
  {
    SqlsRead(AllSegments(b), " ");
    FrontReads(b.ctes);
    BodyReads(b.segments, b.extras);
    TextsConcat(Front(b.ctes), Body(b.segments, b.extras));
  }
}
