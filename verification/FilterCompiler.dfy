/**
  convertWithTemplatesWithSQLite (pkg/metastore/filters/sqlite.go): the method that walks an expression
  and appends to a text and to a list of arguments, and what its result means.
 */
module FilterCompiler {
  import opened Common
  import opened CelFilter
  import opened FilterMeaning
  import opened SqlCondition
  import opened FilterSql

  /**
    The main result. The compiler accepts an expression exactly if it is well typed, and then the text that
    it has written is a condition if and only if the expression is supported. It then has one placeholder for each argument, and a
    database that reads each template faithfully, given the arguments in order, selects by it exactly the
    entries of which the expression is true.
   */
  lemma FilterMeans(e: Expr, now: int, sizeable: set<string>, sql: (string, seq<Value>) -> bool, w: Record)
    requires sizeable <= COLUMNS_LIST && Faithful(sql, w)
    ensures Compiled(e, now, sizeable).Out? <==> WellTyped(e, now, sizeable)
    ensures WellTyped(e, now, sizeable) ==>
              var text, args := Render(Compiled(e, now, sizeable).tokens), Compiled(e, now, sizeable).args;
              var cond := Read(Lex(text));
              && (cond.Some? <==> Supported(e))
              && (cond.Some? ==>
                    && Holes(text) == CondHoles(cond.value) == |args|
                    && Holds(cond.value, args, sql) == Means(e, now, w))
  {
    AcceptedIff(e, now, sizeable);
    if WellTyped(e, now, sizeable) {
      var ts := Compiled(e, now, sizeable).tokens;
      TextWritten(e, now, sizeable);
      LexRender(ts);
      ParseCompiled(e, now, sizeable, []);
      assert Parses(e, now, sizeable, []) && ts + [] == ts;
      ReadWhole(ts, ParseNot(ts));
      TreeAgrees(e, now, sizeable, sql, w);
    }
  }

  lemma ReadWhole(ts: seq<Token>, p: Parsed)
    requires ParseNot(ts) == p && (p.Done? ==> p.rest == [])
    ensures Read(ts) == if p.Fail? then None else Some(p.cond)
  {
    assert ParseAnd(ts) == p;
  }

  /** is_group has no boolean template: the text is empty, and the argument has no placeholder. */
  lemma GroupFilterIsLost()
    ensures Compiled(Call("_==_", Absent, [Ident("is_group"), Const(Bool(true))]), 0, {}) == Out([], [Bool(true)])
  {
    BoolColumns("is_group");
  }

  /** What the expression is written as. */
  function TextOf(e: Expr): string {
    var out := Compiled(e, 0, {});
    if out.Out? then Render(out.tokens) else ""
  }

  lemma LeafText(e: Expr, leaf: LeafSql)
    requires leaf.Accepted? && Compiled(e, 0, {}) == LeafOut(leaf)
    ensures TextOf(e) == leaf.text
  {
    RenderText(leaf.text);
  }

  const NAME_IS := "`children`.`name` = ?"
  const SOURCE_IS := "JSON_EXTRACT(`egroup`.`value`, '$.source') = ?"
  const TAGS_LIKE := "JSON_EXTRACT(`property`.`value`, '$.tags') LIKE ?"

  lemma NameColumn()
    ensures ColumnOf("name") == Some(Column("children", "name", "", StringType))
  {
  }

  lemma SourceColumn()
    ensures ColumnOf("group.source") == Some(Column("egroup", "value", "source", StringType))
  {
  }

  lemma TagColumn(id: string)
    requires id == "tag" || id == "tags"
    ensures ColumnOf(id).Some? && ColumnOf(id).value.(valtype := StringType) == Column("property", "value", "tags", StringType)
  {
  }

  lemma NameText()
    ensures "`" + "children" + "`.`" + "name" + "` " + "=" + " ?" == NAME_IS
  {
  }

  lemma SourceText()
    ensures "JSON_EXTRACT(`" + "egroup" + "`.`" + "value" + "`, '$." + "source" + "')" + " " + "=" + " ?" == SOURCE_IS
  {
    assert "JSON_EXTRACT(`" + "egroup" + "`.`" + "value" + "`, '$." == "JSON_EXTRACT(`egroup`.`value`, '$.";
  }

  lemma TagsText()
    ensures "JSON_EXTRACT(`" + "property" + "`.`" + "value" + "`, '$." + "tags" + "')" + " LIKE ?" == TAGS_LIKE
  {
    assert "JSON_EXTRACT(`" + "property" + "`.`" + "value" + "`, '$." == "JSON_EXTRACT(`property`.`value`, '$.";
  }

  /** The texts that the tests of the compiler ask for: a name in a group, */
  lemma WantedName(v: string)
    ensures TextOf(Call("_==_", Absent, [Ident("name"), Const(Str(v))])) == NAME_IS
  {
    var args := [Ident("name"), Const(Str(v))];
    NameColumn();
    NameText();
    PlainTexts(ColumnOf("name").value, "=");
    LeafText(Call("_==_", Absent, args), Accepted(NAME_IS, [Str(v)]));
  }

  /** a key of the properties of a group, */
  lemma WantedSource(v: string)
    ensures TextOf(Call("_==_", Absent, [Ident("group.source"), Const(Str(v))])) == SOURCE_IS
  {
    var args := [Ident("group.source"), Const(Str(v))];
    SourceColumn();
    SourceText();
    KeyTexts(ColumnOf("group.source").value, "=");
    LeafText(Call("_==_", Absent, args), Accepted(SOURCE_IS, [Str(v)]));
  }

  lemma TagText(id: string)
    requires id == "tag" || id == "tags"
    ensures GetSQL(ContainsElement, id, "") == TAGS_LIKE
  {
    TagColumn(id);
    TagsText();
    KeyTexts(ColumnOf(id).value, "");
  }

  /** an element of a list, */
  lemma WantedElement(v: string)
    ensures TextOf(Call("@in", Absent, [Const(Str(v)), Ident("tags")])) == TAGS_LIKE
  {
    TagText("tags");
    LeafText(Call("@in", Absent, [Const(Str(v)), Ident("tags")]), ElementLeaf("tags", Str(v)));
  }

  lemma TwoValues(v: Value, u: Value)
    ensures ConstValues([Const(v), Const(u)]).Some? && |ConstValues([Const(v), Const(u)]).value| == 2
  {
    var es := [Const(v), Const(u)];
    ConstValuesIff(es);
    ValuesCount(es);
  }

  lemma EitherText(text: string)
    requires text != ""
    ensures Render(ListTokens(text, 2)) == "(" + text + " OR " + text + ")"
  {
    var parts := [text, text];
    JoinedOrs(parts, text);
    RenderParens(Ors(text, 2));
    assert parts[1..] == [text];
    assert "(" + (text + " OR " + text) + ")" == "(" + text + " OR " + text + ")";
  }

  /** and one of two elements. */
  lemma WantedEither(v: string, u: string)
    ensures TextOf(Call("@in", Absent, [Ident("tag"), ListOf([Const(Str(v)), Const(Str(u))])]))
         == "(" + TAGS_LIKE + " OR " + TAGS_LIKE + ")"
  {
    TagText("tag");
    TwoValues(Str(v), Str(u));
    EitherText(TAGS_LIKE);
  }

  // ---------------------------------------------------------------------------------------------
  // The compiler
  // ---------------------------------------------------------------------------------------------

  /** strings.Join */
  function Joined(parts: seq<string>, sep: string): string {
    if parts == [] then "" else if |parts| == 1 then parts[0] else parts[0] + sep + Joined(parts[1..], sep)
  }

  lemma {:induction false} JoinedOrs(parts: seq<string>, text: string)
    requires text != "" && forall i :: 0 <= i < |parts| ==> parts[i] == text
    ensures Joined(parts, " OR ") == Render(Ors(text, |parts|))
    decreases |parts|
  {
    if |parts| == 1 {
      assert Render([Text(text)]) == text + Render([]);
    } else if |parts| > 1 {
      JoinedOrs(parts[1..], text);
      var more := Ors(text, |parts| - 1);
      assert Ors(text, |parts|)[1..] == [OR] + more && ([OR] + more)[1..] == more;
      assert Render(Ors(text, |parts|)) == text + (" OR " + Render(more));
    }
  }

  lemma RenderParens(ts: seq<Token>)
    ensures Render([LP] + ts + [RP]) == "(" + Render(ts) + ")"
  {
    RenderJoin([LP] + ts, [RP]);
    RenderJoin([LP], ts);
    assert Render([LP]) == "(" + Render([]) && Render([RP]) == ")" + Render([]);
  }

  lemma Regroup(a: string, b: string, c: string, d: string, e: string)
    ensures a + (b + c + d) + e == a + b + c + d + e
  {
  }

  lemma RenderBinary(l: seq<Token>, op: Token, r: seq<Token>)
    ensures Render([LP] + (l + [op] + r) + [RP]) == "(" + Render(l) + Spelled(op) + Render(r) + ")"
  {
    var inner := l + [op] + r;
    RenderParens(inner);
    RenderJoin(l + [op], r);
    RenderJoin(l, [op]);
    assert Render([op]) == Spelled(op) + Render([]) == Spelled(op);
    assert Render(inner) == Render(l) + Spelled(op) + Render(r);
    Regroup("(", Render(l), Spelled(op), Render(r), ")");
  }

  lemma RenderNot(ts: seq<Token>)
    ensures Render([NOT, LP] + ts + [RP]) == "NOT (" + Render(ts) + ")"
  {
    RenderParens(ts);
    RenderJoin([NOT], [LP] + ts + [RP]);
    assert Render([NOT]) == "NOT " + Render([]);
    assert [NOT] + ([LP] + ts + [RP]) == [NOT, LP] + ts + [RP];
  }

  class ConvertContext {
    var buffer: string
    var args: seq<Value>

    constructor ()
      ensures buffer == "" && args == []
    {
      buffer, args := "", [];
    }

    /** Appends the text of an expression to the buffer and its arguments to the list. */
    method Convert(e: Expr, now: int, sizeable: set<string>) returns (ok: bool)
      modifies this
      ensures ok <==> Compiled(e, now, sizeable).Out?
      ensures ok ==> buffer == old(buffer) + Render(Compiled(e, now, sizeable).tokens)
      ensures ok ==> args == old(args) + Compiled(e, now, sizeable).args
      decreases e
    {
      match e
      case Call(fn, target, es) =>
        if fn == "_||_" || fn == "_&&_" {
          if |es| != 2 {
            return false;
          }
          ok := ConvertBinary(if fn == "_||_" then OR else AND, es, now, sizeable);
        } else if fn == "!_" {
          if |es| != 1 {
            return false;
          }
          ok := ConvertNot(es, now, sizeable);
        } else if fn in COMPARISONS {
          if |es| != 2 {
            return false;
          }
          ok := WriteLeaf(CompareLeaf(fn, es, now, sizeable));
        } else if fn == "@in" {
          if |es| != 2 {
            return false;
          }
          ok := ConvertIn(es);
        } else if fn == "contains" {
          if |es| != 1 {
            return false;
          }
          ok := WriteLeaf(ContainsLeaf(target, es));
        } else {
          ok := true;
        }
      case Ident(id) =>
        ok := WriteLeaf(IdentLeaf(id));
      case _ =>
        ok := true;
    }

    method ConvertBinary(op: Token, es: seq<Expr>, now: int, sizeable: set<string>) returns (ok: bool)
      requires |es| == 2 && (op == AND || op == OR)
      modifies this
      ensures var l, r := Compiled(es[0], now, sizeable), Compiled(es[1], now, sizeable);
              && (ok <==> l.Out? && r.Out?)
              && (ok ==> buffer == old(buffer) + Render([LP] + (l.tokens + [op] + r.tokens) + [RP]))
              && (ok ==> args == old(args) + (l.args + r.args))
      decreases es
    {
      ghost var l, r := Compiled(es[0], now, sizeable), Compiled(es[1], now, sizeable);
      buffer := buffer + "(";
      ok := Convert(es[0], now, sizeable);
      if !ok {
        return;
      }
      buffer := buffer + Spelled(op);
      ok := Convert(es[1], now, sizeable);
      if !ok {
        return;
      }
      buffer := buffer + ")";
      AppendBinary(old(buffer), l.tokens, op, r.tokens);
      AppendArgs(old(args), l.args, r.args);
    }

    method ConvertNot(es: seq<Expr>, now: int, sizeable: set<string>) returns (ok: bool)
      requires |es| == 1
      modifies this
      ensures var c := Compiled(es[0], now, sizeable);
              && (ok <==> c.Out?)
              && (ok ==> buffer == old(buffer) + Render([NOT, LP] + c.tokens + [RP]) && args == old(args) + c.args)
      decreases es
    {
      ghost var c := Compiled(es[0], now, sizeable);
      buffer := buffer + "NOT (";
      ok := Convert(es[0], now, sizeable);
      if !ok {
        return;
      }
      buffer := buffer + ")";
      AppendNot(old(buffer), c.tokens);
    }

    /** The common end of the cases without operands. */
    method WriteLeaf(leaf: LeafSql) returns (ok: bool)
      modifies this
      ensures ok <==> leaf.Accepted?
      ensures ok ==> buffer == old(buffer) + Render(LeafTokens(leaf.text)) && args == old(args) + leaf.args
    {
      if leaf.Refused? {
        return false;
      }
      RenderText(leaf.text);
      buffer, args := buffer + leaf.text, args + leaf.args;
      ok := true;
    }

    method ConvertIn(es: seq<Expr>) returns (ok: bool)
      requires |es| == 2
      modifies this
      ensures ok <==> InOut(es).Out?
      ensures ok ==> buffer == old(buffer) + Render(InOut(es).tokens) && args == old(args) + InOut(es).args
    {
      if es[1].Ident? {
        if es[1].name !in COLUMNS_LIST || !es[0].Const? {
          return false;
        }
        ok := WriteLeaf(ElementLeaf(es[1].name, es[0].value));
        return;
      }
      if !es[0].Ident? || es[0].name !in COLUMNS_LIST || !es[1].ListOf? {
        return false;
      }
      var all, values := CollectValues(Elements(es[1]));
      if !all {
        return false;
      }
      ElementGood(es[0].name, Int(0));
      WriteList(GetSQL(ContainsElement, es[0].name, ""), values);
      ok := true;
    }

    /** The loop that collects the constants of a list. */
    static method CollectValues(es: seq<Expr>) returns (ok: bool, values: seq<Value>)
      ensures ok <==> ConstValues(es).Some?
      ensures ok ==> values == ConstValues(es).value
    {
      values := [];
      for i := 0 to |es|
        invariant |values| == i
        invariant ConstValues(es).Some? <==> ConstValues(es[i..]).Some?
        invariant ConstValues(es).Some? ==> ConstValues(es).value == values + ConstValues(es[i..]).value
      {
        assert es[i..][1..] == es[i + 1..];
        if !es[i].Const? {
          return false, [];
        }
        values := values + [es[i].value];
      }
      return true, values;
    }

    /** The loop over the values of a list: one condition and one argument each. */
    method WriteList(text: string, values: seq<Value>)
      requires text != ""
      modifies this
      ensures buffer == old(buffer) + Render(ListTokens(text, |values|)) && args == old(args) + Patterns(values)
    {
      var subconditions: seq<string>, patterns: seq<Value> := [], [];
      for i := 0 to |values|
        invariant |subconditions| == i && patterns == Patterns(values[..i])
        invariant forall j :: 0 <= j < i ==> subconditions[j] == text
      {
        subconditions := subconditions + [text];
        patterns := patterns + [ElementPattern(values[i])];
      }
      assert values[..|values|] == values;
      if |subconditions| == 1 {
        RenderText(text);
        buffer := buffer + subconditions[0];
      } else {
        JoinedOrs(subconditions, text);
        RenderParens(Ors(text, |values|));
        buffer := buffer + ("(" + Joined(subconditions, " OR ") + ")");
      }
      args := args + patterns;
    }
  }

  lemma RenderText(text: string)
    ensures Render(LeafTokens(text)) == text
  {
    if text != "" { assert Render([Text(text)]) == text + Render([]); }
  }

  lemma AppendBinary(text: string, l: seq<Token>, op: Token, r: seq<Token>)
    ensures text + "(" + Render(l) + Spelled(op) + Render(r) + ")" == text + Render([LP] + (l + [op] + r) + [RP])
  {
    RenderBinary(l, op, r);
    Append5(text, "(", Render(l), Spelled(op), Render(r), ")");
  }

  lemma AppendNot(text: string, ts: seq<Token>)
    ensures text + "NOT (" + Render(ts) + ")" == text + Render([NOT, LP] + ts + [RP])
  {
    RenderNot(ts);
    Append3(text, "NOT (", Render(ts), ")");
  }

  lemma AppendArgs(a: seq<Value>, b: seq<Value>, c: seq<Value>)
    ensures a + b + c == a + (b + c)
  {
  }

  lemma Append3(a: string, b: string, c: string, d: string)
    ensures a + b + c + d == a + (b + c + d)
  {
  }

  lemma Append5(a: string, b: string, c: string, d: string, e: string, f: string)
    ensures a + b + c + d + e + f == a + (b + c + d + e + f)
  {
  }
}
