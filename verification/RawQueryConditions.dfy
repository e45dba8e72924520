/** How the builder chains conditions: which segment opens the WHERE clause. */
module RawQueryConditions {
  import opened Metadata
  import opened SqlFragments
  import opened RawQueries

  /** The text of a fragment begins with `text`. */
  predicate Begins(sql: Sql, text: string) {
    text <= sql.strings[0]
  }

  lemma ExtendBegins(acc: Sql, arg: Arg, text: string)
    ensures acc.strings[0] <= Extend(acc, arg, text).strings[0]
  {
    if arg.Spliced? && |acc.strings| > 1 { assert Extend(acc, arg, text).strings[0] == acc.strings[0]; }
  }

  lemma {:induction false} TemplateBegins(strings: seq<string>, args: seq<Arg>)
    requires |strings| == |args| + 1
    ensures strings[0] <= Template(strings, args).strings[0]
    decreases |args|
  {
    var n := |args|;
    if n > 0 {
      TemplateBegins(strings[..n], args[..n - 1]);
      ExtendBegins(Template(strings[..n], args[..n - 1]), args[n - 1], strings[n]);
    }
  }

  /** A template that begins with a spliced text begins with that text. */
  lemma {:induction false} SplicedBegins(strings: seq<string>, args: seq<Arg>, head: string)
    requires |strings| == |args| + 1 && args != [] && strings[0] == "" && args[0] == Spliced(Raw(head))
    ensures head <= Template(strings, args).strings[0]
    decreases |args|
  {
    var n := |args|;
    if n == 1 {
      assert strings[..1] == [""] && args[..0] == [];
      assert Template([""], []) == Raw("");
    } else {
      SplicedBegins(strings[..n], args[..n - 1], head);
      ExtendBegins(Template(strings[..n], args[..n - 1]), args[n - 1], strings[n]);
    }
  }

  /** The calls that add a condition and leave word that there is one. */
  predicate Adds(call: Call) {
    || (call.Where? && call.conditions != []) || call.WhereIn? || (call.WhereNotIn? && call.values != [])
    || call.WhereNull? || call.WhereNotNull? || call.WhereBetween?
  }

  /** All the calls that add a condition: two more are chained as they stand. */
  predicate Chains(call: Call) {
    Adds(call) || call.AndWhere? || call.OrWhere?
  }

  /** The segment a condition call pushes. */
  function ConditionSegment(b: Builder, call: Call): Sql
    requires Adds(call)
  {
    match call
    case Where(conditions) =>
      Template(["WHERE ", ""], [Spliced(if |conditions| == 1 then conditions[0]
                                        else SqlFragments.Join(Splices(conditions), " AND "))])
    case WhereIn(column, values) =>
      if values == [] then Raw(Keyword(b) + " 1=0") else ListSegment(Keyword(b), column, " IN (", values)
    case WhereNotIn(column, values) => ListSegment(Keyword(b), column, " NOT IN (", values)
    case WhereNull(column) => Raw(Keyword(b) + " " + column + " IS NULL")
    case WhereNotNull(column) => Raw(Keyword(b) + " " + column + " IS NOT NULL")
    case WhereBetween(column, min, max) =>
      Template(["", " BETWEEN ", " AND ", ""], [Spliced(Raw(Keyword(b) + " " + column)), Bound(min), Bound(max)])
    case _ => Raw("")
  }

  lemma ConditionPushes(b: Builder, call: Call)
    requires Adds(call)
    ensures Apply(b, call) == Ok(Condition(b, ConditionSegment(b, call)))
  {}

  lemma SegmentBegins(b: Builder, call: Call)
    requires Adds(call)
    ensures (if call.Where? then "WHERE" else Keyword(b)) + " " <= ConditionSegment(b, call).strings[0]
  {
    if call.Where? {
      WhereBegins(b, call);
    } else if call.WhereBetween? {
      BetweenBegins(Keyword(b), call.column, call.min, call.max);
    } else if (call.WhereIn? || call.WhereNotIn?) && call.values != [] {
      ListBegins(Keyword(b), call.column, if call.WhereIn? then " IN (" else " NOT IN (", call.values);
    } else {
      TextBegins(b, call);
    }
  }

  lemma WhereBegins(b: Builder, call: Call)
    requires call.Where? && call.conditions != []
    ensures "WHERE" + " " <= ConditionSegment(b, call).strings[0]
  {
    TemplateBegins(["WHERE ", ""], [Spliced(if |call.conditions| == 1 then call.conditions[0]
                                            else SqlFragments.Join(Splices(call.conditions), " AND "))]);
    assert "WHERE" + " " == "WHERE ";
  }

  lemma TextBegins(b: Builder, call: Call)
    requires call.WhereNull? || call.WhereNotNull? || (call.WhereIn? && call.values == [])
    ensures Keyword(b) + " " <= ConditionSegment(b, call).strings[0]
  {
    var keyword := Keyword(b);
    if call.WhereIn? { assert " 1=0" == " " + "1=0"; }
  }

  lemma Starts(head: string, tail: string, text: string)
    requires head + tail <= text
    ensures head <= text
  {
    assert forall i :: 0 <= i < |head| ==> head[i] == (head + tail)[i];
  }

  lemma BetweenBegins(keyword: string, column: string, min: Value, max: Value)
    ensures var args := [Spliced(Raw(keyword + " " + column)), Bound(min), Bound(max)];
            keyword + " " <= Template(["", " BETWEEN ", " AND ", ""], args).strings[0]
  {
    var args := [Spliced(Raw(keyword + " " + column)), Bound(min), Bound(max)];
    SplicedBegins(["", " BETWEEN ", " AND ", ""], args, keyword + " " + column);
    Starts(keyword + " ", column, Template(["", " BETWEEN ", " AND ", ""], args).strings[0]);
  }

  /** A condition's segment begins with WHERE or AND. */
  lemma ConditionBegins(b: Builder, call: Call)
    requires Adds(call)
    ensures var b' := Apply(b, call).value;
            && |b'.segments| == |b.segments| + 1 && b'.hasWhere
            && Begins(b'.segments[|b.segments|], if call.Where? || !b.hasWhere then "WHERE " else "AND ")
  {
    ConditionPushes(b, call);
    SegmentBegins(b, call);
    assert "WHERE" + " " == "WHERE " && "AND" + " " == "AND ";
  }

  lemma ListBegins(keyword: string, column: string, operator: string, values: seq<Value>)
    requires values != []
    ensures keyword + " " <= ListSegment(keyword, column, operator, values).strings[0]
  {
    var list := SqlFragments.Join(Binds(values), ", ");
    SplicedBegins(["", operator, ")"], [Spliced(Raw(keyword + " " + column)), Spliced(list)], keyword + " " + column);
    Starts(keyword + " ", column, ListSegment(keyword, column, operator, values).strings[0]);
  }

  lemma FlagStep(b: Builder, call: Call)
    requires Apply(b, call).Ok?
    ensures Apply(b, call).value.hasWhere <==> b.hasWhere || Adds(call)
  {
    if Adds(call) { ConditionPushes(b, call); }
  }

  // --------------------------------------------------------------- whole runs

  function After(dialect: Dialect, calls: seq<Call>, i: nat): Result<Builder>
    requires i <= |calls|
  {
    ApplyAll(Create(dialect), calls[..i])
  }

  lemma {:induction false} ApplyLast(b: Builder, calls: seq<Call>, last: Call)
    ensures ApplyAll(b, calls + [last])
            == if ApplyAll(b, calls).Err? then ApplyAll(b, calls) else Apply(ApplyAll(b, calls).value, last)
    decreases |calls|
  {
    if calls == [] {
      assert [] + [last] == [last] && [last][1..] == [];
    } else {
      assert (calls + [last])[1..] == calls[1..] + [last];
      if Apply(b, calls[0]).Ok? { ApplyLast(Apply(b, calls[0]).value, calls[1..], last); }
    }
  }

  lemma StepAt(dialect: Dialect, calls: seq<Call>, i: nat)
    requires i < |calls|
    ensures After(dialect, calls, i + 1)
            == if After(dialect, calls, i).Err? then After(dialect, calls, i) else Apply(After(dialect, calls, i).value, calls[i])
  {
    assert calls[..i + 1] == calls[..i] + [calls[i]];
    ApplyLast(Create(dialect), calls[..i], calls[i]);
  }

  /** A condition was added before the `i`th call. */
  ghost predicate Added(calls: seq<Call>, i: nat)
    requires i <= |calls|
  {
    exists j :: 0 <= j < i && Adds(calls[j])
  }

  lemma {:induction false} PrefixBuilds(dialect: Dialect, calls: seq<Call>, i: nat, n: nat)
    requires i <= n <= |calls| && After(dialect, calls, n).Ok?
    ensures After(dialect, calls, i).Ok?
    decreases n
  {
    if i < n {
      StepAt(dialect, calls, n - 1);
      PrefixBuilds(dialect, calls, i, n - 1);
    }
  }

  /** The flag says whether a condition was added. */
  lemma {:induction false} FlagIsAdded(dialect: Dialect, calls: seq<Call>, i: nat)
    requires i <= |calls| && After(dialect, calls, i).Ok?
    ensures After(dialect, calls, i).value.hasWhere <==> Added(calls, i)
  {
    if i > 0 {
      PrefixBuilds(dialect, calls, i - 1, i);
      FlagIsAdded(dialect, calls, i - 1);
      StepAt(dialect, calls, i - 1);
      FlagStep(After(dialect, calls, i - 1).value, calls[i - 1]);
    }
  }

  /** The segment the `i`th call adds. */
  function SegmentAt(dialect: Dialect, calls: seq<Call>, i: nat): Sql
    requires i < |calls| && After(dialect, calls, i + 1).Ok? && After(dialect, calls, i).Ok?
    requires |After(dialect, calls, i).value.segments| < |After(dialect, calls, i + 1).value.segments|
  {
    After(dialect, calls, i + 1).value.segments[|After(dialect, calls, i).value.segments|]
  }

  /** The `i`th call adds a segment that begins with `head`. */
  ghost predicate BeginsWith(dialect: Dialect, calls: seq<Call>, i: nat, head: string)
    requires i < |calls|
  {
    && After(dialect, calls, i).Ok? && After(dialect, calls, i + 1).Ok?
    && |After(dialect, calls, i).value.segments| < |After(dialect, calls, i + 1).value.segments|
    && Begins(SegmentAt(dialect, calls, i), head)
  }

  ghost predicate Opens(dialect: Dialect, calls: seq<Call>, i: nat)
    requires i < |calls|
  {
    BeginsWith(dialect, calls, i, "WHERE ")
  }

  lemma AddedBegins(dialect: Dialect, calls: seq<Call>, i: nat)
    requires i < |calls| && Adds(calls[i]) && After(dialect, calls, |calls|).Ok?
    ensures BeginsWith(dialect, calls, i, if calls[i].Where? || !Added(calls, i) then "WHERE " else "AND ")
  {
    PrefixBuilds(dialect, calls, i, |calls|);
    PrefixBuilds(dialect, calls, i + 1, |calls|);
    FlagIsAdded(dialect, calls, i);
    StepAt(dialect, calls, i);
    ConditionBegins(After(dialect, calls, i).value, calls[i]);
  }

  lemma ChainedBegins(dialect: Dialect, calls: seq<Call>, i: nat)
    requires i < |calls| && (calls[i].AndWhere? || calls[i].OrWhere?) && After(dialect, calls, |calls|).Ok?
    ensures BeginsWith(dialect, calls, i, if calls[i].AndWhere? then "AND " else "OR ")
  {
    PrefixBuilds(dialect, calls, i, |calls|);
    PrefixBuilds(dialect, calls, i + 1, |calls|);
    StepAt(dialect, calls, i);
    TemplateBegins([if calls[i].AndWhere? then "AND " else "OR ", ""], [Spliced(calls[i].condition)]);
  }

  lemma OneBeginning(dialect: Dialect, calls: seq<Call>, i: nat, head: string, other: string)
    requires i < |calls| && BeginsWith(dialect, calls, i, head) && head != "" && other != "" && head[0] != other[0]
    ensures !BeginsWith(dialect, calls, i, other)
  {
    OneHead(SegmentAt(dialect, calls, i).strings[0], head, other);
  }

  lemma OneHead(text: string, head: string, other: string)
    requires head <= text && head != "" && other != "" && head[0] != other[0]
    ensures !(other <= text)
  {
    assert text[0] == head[0];
  }

  /** In every run a condition opens the clause when it comes through `where`, or
      is the first that leaves word and not chained as it stands; otherwise it
      begins with AND or OR. */
  lemma ConditionOpensIff(dialect: Dialect, calls: seq<Call>, i: nat)
    requires i < |calls| && Chains(calls[i]) && After(dialect, calls, |calls|).Ok?
    ensures Opens(dialect, calls, i) <==> calls[i].Where? || (Adds(calls[i]) && !Added(calls, i))
    ensures !Opens(dialect, calls, i) ==> BeginsWith(dialect, calls, i, if calls[i].OrWhere? then "OR " else "AND ")
  {
    if Adds(calls[i]) {
      AddedBegins(dialect, calls, i);
      if !(calls[i].Where? || !Added(calls, i)) { OneBeginning(dialect, calls, i, "AND ", "WHERE "); }
    } else {
      ChainedBegins(dialect, calls, i);
      OneBeginning(dialect, calls, i, if calls[i].AndWhere? then "AND " else "OR ", "WHERE ");
    }
  }

  /** No condition comes before the `i`th call. */
  ghost predicate First(calls: seq<Call>, i: nat)
    requires i < |calls|
  {
    forall j | 0 <= j < i :: !Chains(calls[j])
  }

  /** The conditions read as one clause: the first opens it and no other does. */
  ghost predicate OneClause(dialect: Dialect, calls: seq<Call>) {
    forall i | 0 <= i < |calls| && Chains(calls[i]) :: Opens(dialect, calls, i) <==> First(calls, i)
  }

  lemma {:induction false} FirstBefore(calls: seq<Call>, i: nat) returns (first: nat)
    requires i < |calls| && Chains(calls[i])
    ensures first <= i && Chains(calls[first]) && First(calls, first)
    ensures !First(calls, i) ==> first < i
  {
    if j: nat :| j < i && Chains(calls[j]) {
      first := FirstBefore(calls, j);
    } else {
      first := i;
    }
  }

  /** They do exactly when the first of them is not `andWhere` or `orWhere` and no
      non-empty `where` follows another condition. */
  lemma OneWhereIff(dialect: Dialect, calls: seq<Call>)
    requires After(dialect, calls, |calls|).Ok?
    ensures OneClause(dialect, calls)
            <==> forall i | 0 <= i < |calls| && Chains(calls[i]) ::
                   if First(calls, i) then Adds(calls[i]) else !calls[i].Where?
  {
    forall i | 0 <= i < |calls| && Chains(calls[i])
      ensures Opens(dialect, calls, i) <==> calls[i].Where? || (Adds(calls[i]) && !Added(calls, i))
      ensures First(calls, i) ==> !Added(calls, i)
    {
      ConditionOpensIff(dialect, calls, i);
    }
    if forall i | 0 <= i < |calls| && Chains(calls[i]) :: if First(calls, i) then Adds(calls[i]) else !calls[i].Where? {
      forall i | 0 <= i < |calls| && Chains(calls[i]) && !First(calls, i) ensures Added(calls, i) {
        var first := FirstBefore(calls, i);
        assert Adds(calls[first]);
      }
    }
  }

  /** A condition chained onto an empty `where` dangles: the statement's only
      condition begins with AND. */
  lemma EmptyWhereDangles(dialect: Dialect, condition: Sql)
    ensures var calls := [Where([]), AndWhere(condition)];
            After(dialect, calls, 2).Ok? && BeginsWith(dialect, calls, 1, "AND ") && !Opens(dialect, calls, 1)
  {
    var calls := [Where([]), AndWhere(condition)];
    assert calls[..0] == [] && calls[..1] == [Where([])];
    StepAt(dialect, calls, 0);
    StepAt(dialect, calls, 1);
    ConditionOpensIff(dialect, calls, 1);
  }
}
