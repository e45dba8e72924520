/** What a flattened fragment says: its text with `?` for each value, and the
    values those stand for. */
module RawQueryText {
  import opened Metadata
  import opened SqlFragments
  import opened RawQueries
  import opened RawQueryProofs

  function ArgText(arg: Arg): string {
    match arg
    case Bound(_) => "?"
    case Spliced(f) => Text(f)
  }

  /** The template read left to right, each argument in its place. */
  function Interleaved(strings: seq<string>, args: seq<Arg>): string
    requires |strings| == |args| + 1
    decreases |args|
  {
    var n := |args|;
    if n == 0 then strings[0] else Interleaved(strings[..n], args[..n - 1]) + ArgText(args[n - 1]) + strings[n]
  }

  lemma {:induction false} ConcatAppend(a: seq<string>, b: seq<string>, separator: string)
    requires a != [] && b != []
    ensures Concat(a + b, separator) == Concat(a, separator) + separator + Concat(b, separator)
  {
    assert (a + b)[1..] == a[1..] + b;
    if |a| > 1 {
      ConcatAppend(a[1..], b, separator);
    } else {
      assert a[1..] + b == b;
    }
  }

  lemma {:induction false} ConcatLast(a: seq<string>, last: string, more: string, separator: string)
    ensures Concat(a + [last + more], separator) == Concat(a + [last], separator) + more
  {
    if a == [] {
      assert [] + [last + more] == [last + more] && [] + [last] == [last];
    } else {
      ConcatAppend(a, [last + more], separator);
      ConcatAppend(a, [last], separator);
    }
  }

  lemma {:induction false} ConcatFirst(first: string, b: seq<string>, more: string, separator: string)
    ensures Concat([more + first] + b, separator) == more + Concat([first] + b, separator)
  {
    if b == [] {
      assert [more + first] + b == [more + first] && [first] + b == [first];
    } else {
      ConcatAppend([more + first], b, separator);
      ConcatAppend([first], b, separator);
    }
  }

  /** The text of two fragments whose meeting chunks are glued together. */
  lemma ConcatGlued(a: seq<string>, last: string, first: string, b: seq<string>, separator: string)
    ensures Concat(a + ([last + first] + b), separator) == Concat(a + [last], separator) + Concat([first] + b, separator)
  {
    ConcatFirst(first, b, last, separator);
    if a == [] {
      assert a + ([last + first] + b) == [last + first] + b && a + [last] == [last];
    } else {
      ConcatAppend(a, [last + first] + b, separator);
      ConcatAppend(a, [last], separator);
    }
  }

  lemma TextOfExtend(acc: Sql, arg: Arg, text: string)
    ensures Text(Extend(acc, arg, text)) == Text(acc) + ArgText(arg) + text
  {
    var n := |acc.strings| - 1;
    var front, last := acc.strings[..n], acc.strings[n];
    assert acc.strings == front + [last];
    match arg
    case Bound(v) => ConcatAppend(acc.strings, [text], "?");
    case Spliced(f) =>
      var m := |f.strings| - 1;
      if m == 0 {
        assert f.strings == [f.strings[0]];
        ConcatLast(front, last, f.strings[0] + text, "?");
        assert last + f.strings[0] + text == last + (f.strings[0] + text);
      } else {
        var middle, end := f.strings[1..m], f.strings[m];
        assert f.strings == [f.strings[0]] + (middle + [end]);
        TextOfSplice(front, last, f.strings[0], middle, end, text);
        assert Extend(acc, arg, text).strings == front + ([last + f.strings[0]] + (middle + [end + text]));
      }
  }

  lemma TextOfSplice(front: seq<string>, last: string, first: string, middle: seq<string>, end: string, text: string)
    ensures Concat(front + ([last + first] + (middle + [end + text])), "?")
            == Concat(front + [last], "?") + Concat([first] + (middle + [end]), "?") + text
  {
    ConcatGlued(front, last, first, middle + [end + text], "?");
    ConcatLast([first] + middle, end, text, "?");
    assert ([first] + middle) + [end + text] == [first] + (middle + [end + text]);
    assert ([first] + middle) + [end] == [first] + (middle + [end]);
  }

  /** Flattening changes no text: a fragment reads as its template with `?` for
      each bound value and each spliced fragment's own text in its place. */
  lemma {:induction false} TextOfTemplate(strings: seq<string>, args: seq<Arg>)
    requires |strings| == |args| + 1
    ensures Text(Template(strings, args)) == Interleaved(strings, args)
    decreases |args|
  {
    var n := |args|;
    if n > 0 {
      TextOfTemplate(strings[..n], args[..n - 1]);
      TextOfExtend(Template(strings[..n], args[..n - 1]), args[n - 1], strings[n]);
    }
  }

  lemma TextOfTwo(s0: string, a: Arg, s1: string, b: Arg, s2: string)
    ensures Text(Template([s0, s1, s2], [a, b])) == s0 + ArgText(a) + s1 + ArgText(b) + s2
    ensures Template([s0, s1, s2], [a, b]).values == ArgValues([a]) + ArgValues([b])
  {
    TextOfTemplate([s0, s1, s2], [a, b]);
    PairValues(s0, a, s1, b, s2);
    TextOfOne(s0, a, s1);
    assert [s0, s1, s2][..2] == [s0, s1] && [a, b][..1] == [a];
    assert Interleaved([s0, s1], [a]) == s0 + ArgText(a) + s1;
  }

  lemma TextOfOne(s0: string, a: Arg, s1: string)
    ensures Interleaved([s0, s1], [a]) == s0 + ArgText(a) + s1
  {
    assert [s0, s1][..1] == [s0] && [a][..0] == [];
    assert Interleaved([s0], []) == s0;
  }

  /** MySQL takes the offset first, the other dialects the count. */
  lemma LimitIs(dialect: Dialect, offset: Value, count: Value)
    ensures var sql := LimitSegment(dialect, Some(offset), count);
            if dialect.MySql? then Text(sql) == "LIMIT ?, ?" && sql.values == [offset, count]
            else Text(sql) == "LIMIT ? OFFSET ?" && sql.values == [count, offset]
  {
    assert "LIMIT " + "?" + ", " + "?" + "" == "LIMIT ?, ?" && "LIMIT " + "?" + " OFFSET " + "?" + "" == "LIMIT ? OFFSET ?";
    TextOfTwo("LIMIT ", Bound(offset), ", ", Bound(count), "");
    TextOfTwo("LIMIT ", Bound(count), " OFFSET ", Bound(offset), "");
  }

  function Marks(n: nat): string {
    if n == 0 then "" else if n == 1 then "?" else Marks(n - 1) + ", " + "?"
  }

  /** A list reads as one `?` per value, bound in order. */
  lemma {:induction false} MarksOf(values: seq<Value>)
    requires values != []
    ensures Text(SqlFragments.Join(Binds(values), ", ")) == Marks(|values|)
    ensures SqlFragments.Join(Binds(values), ", ").values == values
  {
    var n := |values|;
    var strings := [""] + Repeat(", ", n - 1) + [""];
    TemplateKeepsValues(strings, Binds(values));
    BoundValues(values);
    TextOfTemplate(strings, Binds(values));
    MarksUpTo(values, n);
    assert strings[..n] == [""] + Repeat(", ", n - 1) && Binds(values)[..n] == Binds(values);
  }

  /** The first `k` values of the list, before the closing chunk. */
  lemma {:induction false} MarksUpTo(values: seq<Value>, k: nat)
    requires 0 < k <= |values|
    ensures var head := [""] + Repeat(", ", k - 1);
            Interleaved(head + [""], Binds(values)[..k]) == Marks(k)
  {
    var args := Binds(values)[..k];
    assert args[..k - 1] == Binds(values)[..k - 1];
    if k == 1 {
      FirstMark(args);
      assert [""] + Repeat(", ", 0) == [""];
    } else {
      MarksUpTo(values, k - 1);
      var before := [""] + Repeat(", ", k - 2);
      assert [""] + Repeat(", ", k - 1) == before + [", "];
      NextMark(before, args);
    }
  }

  lemma FirstMark(args: seq<Arg>)
    requires |args| == 1 && args[0].Bound?
    ensures Interleaved([""] + [""], args) == "?"
  {
    assert ([""] + [""])[..1] == [""] && args[..0] == [];
    assert Interleaved([""], []) == "";
  }

  lemma NextMark(before: seq<string>, args: seq<Arg>)
    requires |args| == |before| + 1 > 1 && args[|before|].Bound?
    ensures Interleaved(before + [", "] + [""], args) == Interleaved(before + [""], args[..|before|]) + ", " + "?"
  {
    assert (before + [", "] + [""])[..|args|] == before + [", "];
    SameButLast(before, "", ", ", args[..|before|]);
  }

  lemma SameButLast(before: seq<string>, x: string, y: string, args: seq<Arg>)
    requires |before| == |args| > 0
    ensures Interleaved(before + [x], args) + y == Interleaved(before + [x + y], args)
  {
    var n := |args|;
    assert (before + [x])[..n] == before && (before + [x + y])[..n] == before;
  }

  lemma {:induction false} BoundValues(values: seq<Value>)
    ensures ArgValues(Binds(values)) == values
  {
    if values != [] {
      BoundValues(values[..|values| - 1]);
      assert Binds(values)[..|values| - 1] == Binds(values[..|values| - 1]);
    }
  }

  /** An IN list: the column, one `?` per value, and the values in order. */
  lemma ListIs(keyword: string, column: string, operator: string, values: seq<Value>)
    requires values != []
    ensures var sql := ListSegment(keyword, column, operator, values);
            Text(sql) == keyword + " " + column + operator + Marks(|values|) + ")" && sql.values == values
  {
    var head, list := Raw(keyword + " " + column), SqlFragments.Join(Binds(values), ", ");
    MarksOf(values);
    TextOfTwo("", Spliced(head), operator, Spliced(list), ")");
    assert ArgText(Spliced(head)) == keyword + " " + column;
    assert "" + (keyword + " " + column) == keyword + " " + column;
    assert ArgValues([Spliced(head)]) == [] && ArgValues([Spliced(list)]) == values;
  }

  /** A subquery or a name, joined on its condition: their values in that order. */
  lemma JoinBinds(kind: string, table: Table, alias: string, condition: Sql)
    ensures JoinSegment(kind, table, alias, condition).values
            == (if table.Derived? then table.sql.values else []) + condition.values
  {
    match table
    case Named(text) =>
      var head := if Includes(text, " AS " + alias) then kind + " JOIN " + text else kind + " JOIN " + text + " AS " + alias;
      PairValues("", Spliced(Raw(head)), " ON ", Spliced(condition), "");
      assert ArgValues([Spliced(Raw(head))]) == [] && ArgValues([Spliced(condition)]) == condition.values;
    case Derived(sql) =>
      var k, a, c := Spliced(Raw(kind)), Spliced(Raw(alias)), Spliced(condition);
      TemplateKeepsValues(["", " JOIN ", " ON ", ""], [k, Spliced(sql), c]);
      TemplateKeepsValues(["", " JOIN ", " AS ", " ON ", ""], [k, Spliced(sql), a, c]);
      assert [k, Spliced(sql), c][..2] == [k, Spliced(sql)] && [k, Spliced(sql)][..1] == [k];
      assert [k, Spliced(sql), a, c][..3] == [k, Spliced(sql), a] && [k, Spliced(sql), a][..2] == [k, Spliced(sql)];
      assert ArgValues([k]) == [] && ArgValues([k, Spliced(sql)]) == sql.values;
  }
}
