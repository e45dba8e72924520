/** Parameterized SQL fragments: literal chunks with one bound value between
    each two, flattened when one is spliced into another. */
module SqlFragments {
  import opened Metadata

  /** A bound value: an opaque scalar, or a marker to fill in later. */
  datatype Value = Scalar(repr: string) | Placeholder(name: string)

  datatype Fragment = Fragment(strings: seq<string>, values: seq<Value>)

  /** A fragment always has one more chunk than values. */
  type Sql = f: Fragment | |f.strings| == |f.values| + 1 witness Fragment([""], [])

  /** What a template interpolates. */
  datatype Arg = Bound(value: Value) | Spliced(sql: Sql)

  function Raw(text: string): Sql {
    Fragment([text], [])
  }

  /** `acc`, then `arg`, then `text`. */
  function Extend(acc: Sql, arg: Arg, text: string): Sql {
    match arg
    case Bound(v) => Fragment(acc.strings + [text], acc.values + [v])
    case Spliced(f) =>
      var n := |acc.strings| - 1;
      var m := |f.strings| - 1;
      if m == 0 then Fragment(acc.strings[..n] + [acc.strings[n] + f.strings[0] + text], acc.values)
      else Fragment(acc.strings[..n] + [acc.strings[n] + f.strings[0]] + f.strings[1..m] + [f.strings[m] + text],
                    acc.values + f.values)
  }

  /** The template tag, flattened at construction. */
  function Template(strings: seq<string>, args: seq<Arg>): Sql
    requires |strings| == |args| + 1
    decreases |args|
  {
    var n := |args|;
    if n == 0 then Raw(strings[0]) else Extend(Template(strings[..n], args[..n - 1]), args[n - 1], strings[n])
  }

  function Repeat(text: string, n: nat): (texts: seq<string>)
    ensures |texts| == n
  {
    seq(n, _ => text)
  }

  /** Fragments or values with a separator; joining nothing is refused. */
  function Join(args: seq<Arg>, separator: string): Sql
    requires args != []
  {
    Template([""] + Repeat(separator, |args| - 1) + [""], args)
  }

  function Splices(sqls: seq<Sql>): (args: seq<Arg>)
    ensures |args| == |sqls|
  {
    seq(|sqls|, i requires 0 <= i < |sqls| => Spliced(sqls[i]))
  }

  function Binds(values: seq<Value>): (args: seq<Arg>)
    ensures |args| == |values|
  {
    seq(|values|, i requires 0 <= i < |values| => Bound(values[i]))
  }

  // ------------------------------------------------------------ substitution

  type Params = map<string, Value>

  /** The value in place of a placeholder that has one. */
  function Filled(params: Params, v: Value): Value {
    if v.Placeholder? && v.name in params then params[v.name] else v
  }

  function FilledValues(params: Params, values: seq<Value>): (r: seq<Value>)
    ensures |r| == |values| && forall i :: 0 <= i < |r| ==> r[i] == Filled(params, values[i])
  {
    seq(|values|, i requires 0 <= i < |values| => Filled(params, values[i]))
  }

  function FilledSql(params: Params, f: Sql): Sql {
    Fragment(f.strings, FilledValues(params, f.values))
  }

  function FilledArg(params: Params, a: Arg): Arg {
    match a
    case Bound(v) => Bound(Filled(params, v))
    case Spliced(f) => Spliced(FilledSql(params, f))
  }

  function FilledArgs(params: Params, args: seq<Arg>): (r: seq<Arg>)
    ensures |r| == |args| && forall i :: 0 <= i < |r| ==> r[i] == FilledArg(params, args[i])
  {
    seq(|args|, i requires 0 <= i < |args| => FilledArg(params, args[i]))
  }

  function FilledSqls(params: Params, sqls: seq<Sql>): (r: seq<Sql>)
    ensures |r| == |sqls| && forall i :: 0 <= i < |r| ==> r[i] == FilledSql(params, sqls[i])
  {
    seq(|sqls|, i requires 0 <= i < |sqls| => FilledSql(params, sqls[i]))
  }

  /** Each placeholder that has a value gave way to it, and nothing else changed. */
  ghost predicate FilledIn(params: Params, before: seq<Value>, after: seq<Value>) {
    && |after| == |before|
    && (forall i :: 0 <= i < |before| && before[i].Placeholder? && before[i].name in params ==>
          after[i] == params[before[i].name])
    && (forall i :: 0 <= i < |before| && (before[i].Placeholder? ==> before[i].name !in params) ==> after[i] == before[i])
  }

  lemma FilledConcat(params: Params, a: seq<Value>, b: seq<Value>)
    ensures FilledValues(params, a + b) == FilledValues(params, a) + FilledValues(params, b)
  {}

  lemma FilledExtend(params: Params, acc: Sql, arg: Arg, text: string)
    ensures FilledSql(params, Extend(acc, arg, text)) == Extend(FilledSql(params, acc), FilledArg(params, arg), text)
  {
    match arg
    case Bound(v) => FilledConcat(params, acc.values, [v]);
    case Spliced(f) => FilledConcat(params, acc.values, f.values);
  }

  /** Filling in before or after flattening is the same. */
  lemma {:induction false} FilledTemplate(params: Params, strings: seq<string>, args: seq<Arg>)
    requires |strings| == |args| + 1
    ensures FilledSql(params, Template(strings, args)) == Template(strings, FilledArgs(params, args))
    decreases |args|
  {
    var n := |args|;
    if n > 0 {
      FilledTemplate(params, strings[..n], args[..n - 1]);
      FilledExtend(params, Template(strings[..n], args[..n - 1]), args[n - 1], strings[n]);
      assert FilledArgs(params, args)[..n - 1] == FilledArgs(params, args[..n - 1]);
    }
  }

  lemma FilledJoin(params: Params, args: seq<Arg>, separator: string)
    requires args != []
    ensures FilledSql(params, Join(args, separator)) == Join(FilledArgs(params, args), separator)
  {
    FilledTemplate(params, [""] + Repeat(separator, |args| - 1) + [""], args);
  }

  lemma FilledSplices(params: Params, sqls: seq<Sql>)
    ensures FilledArgs(params, Splices(sqls)) == Splices(FilledSqls(params, sqls))
  {}

  lemma FilledBinds(params: Params, values: seq<Value>)
    ensures FilledArgs(params, Binds(values)) == Binds(FilledValues(params, values))
  {}

  /** Rebuilding a fragment from its chunks and bound values gives it back. */
  lemma {:induction false} TemplateOfBinds(strings: seq<string>, values: seq<Value>)
    requires |strings| == |values| + 1
    ensures Template(strings, Binds(values)) == Fragment(strings, values)
  {
    var n := |values|;
    if n == 0 {
      assert strings == [strings[0]];
    } else {
      TemplateOfBinds(strings[..n], values[..n - 1]);
      assert Binds(values)[..n - 1] == Binds(values[..n - 1]);
      assert strings == strings[..n] + [strings[n]] && values == values[..n - 1] + [values[n - 1]];
    }
  }
}
