/**
  For every record there is a database that reads the templates faithfully, so that what `FilterMeans`
  expects of one is no contradiction: the text of a leaf tells the template's column, its operator, and
  whether it is about a cell or a length.
 */
module FilterDatabase {
  import opened CelFilter
  import opened FilterMeaning

  // ---------------------------------------------------------------------------------------------
  // Taking texts apart
  // ---------------------------------------------------------------------------------------------

  lemma CutAt(a: string, x: string, b: string, y: string, ch: char)
    requires a + [ch] + x == b + [ch] + y && ch !in a && ch !in b
    ensures a == b && x == y
  {
    var s := a + [ch] + x;
    assert s[|a|] == ch && s[|b|] == ch;
    assert forall i :: 0 <= i < |a| ==> s[i] == a[i] && s[i] in a;
    assert forall i :: 0 <= i < |b| ==> s[i] == b[i] && s[i] in b;
    assert s[..|a|] == a && s[|a| + 1..] == x && s[..|b|] == b && s[|b| + 1..] == y;
  }

  lemma CutEnd(a: string, b: string, end: string)
    requires a + end == b + end
    ensures a == b
  {
    assert (a + end)[..|a|] == a && (b + end)[..|b|] == b;
  }

  lemma CutCall(f: string, a: string, b: string)
    requires CallText(f, a) == CallText(f, b)
    ensures a == b
  {
    var s := CallText(f, a);
    assert s[|f| + 1..|s| - 1] == a && CallText(f, b)[|f| + 1..|s| - 1] == b;
  }

  /** A cell: where it is. */
  predicate SameCell(c: Column, d: Column) {
    c.table == d.table && c.column == d.column && c.jsonkey == d.jsonkey
  }

  lemma CutName(c: Column, x: string, d: Column, y: string)
    requires ColumnName(c) + x == ColumnName(d) + y
    ensures c.table == d.table && c.column == d.column && x == y
  {
    var s := ColumnName(c) + x;
    var u, v := ".`" + c.column + "`" + x, ".`" + d.column + "`" + y;
    assert s[1..] == c.table + ['`'] + u && (ColumnName(d) + y)[1..] == d.table + ['`'] + v;
    CutAt(c.table, u, d.table, v, '`');
    assert u[2..] == c.column + ['`'] + x && v[2..] == d.column + ['`'] + y;
    CutAt(c.column, x, d.column, y, '`');
  }

  lemma CutJson(c: Column, d: Column)
    requires JsonValue(c) == JsonValue(d)
    ensures SameCell(c, d)
  {
    var x, y := ", '$." + c.jsonkey + "'", ", '$." + d.jsonkey + "'";
    assert ColumnName(c) + ", '$." + c.jsonkey + "'" == ColumnName(c) + x;
    assert ColumnName(d) + ", '$." + d.jsonkey + "'" == ColumnName(d) + y;
    CutCall("JSON_EXTRACT", ColumnName(c) + x, ColumnName(d) + y);
    CutName(c, x, d, y);
    assert x[5..] == c.jsonkey + ['\''] + "" && y[5..] == d.jsonkey + ['\''] + "";
    CutAt(c.jsonkey, "", d.jsonkey, "", '\'');
  }

  lemma CutOr(c: Column, d: Column, other: string)
    requires JsonOr(c, other) == JsonOr(d, other)
    ensures SameCell(c, d)
  {
    CutCall("COALESCE", JsonValue(c) + (", " + other), JsonValue(d) + (", " + other));
    CutEnd(JsonValue(c), JsonValue(d), ", " + other);
    CutJson(c, d);
  }

  lemma CutLength(c: Column, d: Column, other: string)
    requires CallText("JSON_ARRAY_LENGTH", JsonOr(c, other)) == CallText("JSON_ARRAY_LENGTH", JsonOr(d, other))
    ensures SameCell(c, d)
  {
    CutCall("JSON_ARRAY_LENGTH", JsonOr(c, other), JsonOr(d, other));
    CutOr(c, d, other);
  }

  /** The four shapes of a left side, told apart by two of their characters. */
  datatype Shape = Plain | Json | Coalesced | Length

  function ShapeOf(template: Template, c: Column): Shape {
    if c.jsonkey == "" then Plain
    else if template in {BooleanCompare, BooleanCheck} then Coalesced
    else if template == ArrayLength then Length else Json
  }

  lemma ShapeSeen(template: Template, c: Column)
    requires LeftSide(template, c) != ""
    ensures var s := LeftSide(template, c);
            && s[0] == (match ShapeOf(template, c) case Plain => '`' case Coalesced => 'C' case _ => 'J')
            && (ShapeOf(template, c) in {Json, Length} ==> |s| > 5 && s[5] == if ShapeOf(template, c) == Json then 'E' else 'A')
  {
  }

  /** The left side of a leaf tells its cell, and whether it is about a length. */
  lemma LeftTells(t: Template, c: Column, u: Template, d: Column)
    requires LeftSide(t, c) == LeftSide(u, d) != ""
    ensures SameCell(c, d) && (t == ArrayLength <==> u == ArrayLength)
  {
    ShapeSeen(t, c);
    ShapeSeen(u, d);
    assert ShapeOf(t, c) == ShapeOf(u, d);
    match ShapeOf(t, c)
    case Plain =>
      assert ColumnName(c) + "" == ColumnName(c) && ColumnName(d) + "" == ColumnName(d);
      CutName(c, "", d, "");
    case Json => CutJson(c, d);
    case Coalesced => CutOr(c, d, "false");
    case Length => CutLength(c, d, CallText("JSON_ARRAY", ""));
  }

  // ---------------------------------------------------------------------------------------------
  // The database
  // ---------------------------------------------------------------------------------------------

  function Seen(w: Record, t: Template, c: Column): Value {
    if t == ArrayLength then w.Length(c) else w.Cell(c)
  }

  /** A left side with a comparison after it. */
  ghost predicate Compared(w: Record, left: string, op: string, v: Value) {
    exists t, c :: left == LeftSide(t, c) != "" && SqlCompares(op, Seen(w, t, c), v)
  }

  ghost predicate Liked(w: Record, left: string, v: Value) {
    v.Pattern? && exists t, c :: left == LeftSide(t, c) != "" && Matches(w, Seen(w, t, c), v)
  }

  /** A pattern for a part of a text, or for an element of a list. */
  predicate Matches(w: Record, a: Value, v: Value)
    requires v.Pattern?
  {
    if v == Pattern("%", v.value, "%") then w.contains(a, v.value) else v == ElementPattern(v.value) && w.has(a, v.value)
  }

  ghost predicate Checked(w: Record, left: string) {
    exists t, c :: left == LeftSide(t, c) != "" && Seen(w, t, c) == Bool(true)
  }

  lemma ComparedIff(w: Record, t: Template, c: Column, op: string, v: Value)
    requires LeftSide(t, c) != ""
    ensures Compared(w, LeftSide(t, c), op, v) <==> SqlCompares(op, Seen(w, t, c), v)
  {
    if Compared(w, LeftSide(t, c), op, v) {
      var u, d :| LeftSide(t, c) == LeftSide(u, d) != "" && SqlCompares(op, Seen(w, u, d), v);
      LeftTells(t, c, u, d);
    }
  }

  lemma LikedIff(w: Record, t: Template, c: Column, v: Value)
    requires LeftSide(t, c) != ""
    ensures Liked(w, LeftSide(t, c), Pattern("%", v, "%")) <==> w.contains(Seen(w, t, c), v)
    ensures Liked(w, LeftSide(t, c), ElementPattern(v)) <==> w.has(Seen(w, t, c), v)
  {
    var left := LeftSide(t, c);
    forall u, d | left == LeftSide(u, d) ensures Seen(w, u, d) == Seen(w, t, c) {
      LeftTells(t, c, u, d);
    }
  }

  lemma CheckedIff(w: Record, t: Template, c: Column)
    requires LeftSide(t, c) != ""
    ensures Checked(w, LeftSide(t, c)) <==> Seen(w, t, c) == Bool(true)
  {
    if Checked(w, LeftSide(t, c)) {
      var u, d :| LeftSide(t, c) == LeftSide(u, d) != "" && Seen(w, u, d) == Bool(true);
      LeftTells(t, c, u, d);
    }
  }

  function OpText(op: string): string {
    " " + op + " ?"
  }

  ghost predicate ByOperator(w: Record, text: string, v: Value) {
    exists left, op :: op in SQL_OPERATORS && text == left + OpText(op) && Compared(w, left, op, v)
  }

  ghost predicate ByPattern(w: Record, text: string, v: Value) {
    exists left :: text == left + " LIKE ?" && Liked(w, left, v)
  }

  ghost predicate ByCheck(w: Record, text: string) {
    exists left :: text == left + " IS TRUE" && Checked(w, left)
  }

  ghost function Database(w: Record): (string, seq<Value>) -> bool {
    (text, args) => if args == [] then ByCheck(w, text) else ByOperator(w, text, args[0]) || ByPattern(w, text, args[0])
  }

  /** The operator, and with it the left side, can be read off a text. */
  lemma OperatorTells(a: string, op: string, b: string, op': string)
    requires op in SQL_OPERATORS && op' in SQL_OPERATORS && a + OpText(op) == b + OpText(op')
    ensures a == b && op == op'
  {
    var s := a + OpText(op);
    var n := |s|;
    assert s[n - 3] == op[|op| - 1] && s[n - 3] == op'[|op'| - 1];
    assert s[n - 4] == (if |op| == 2 then op[0] else ' ') && s[n - 4] == (if |op'| == 2 then op'[0] else ' ');
    assert |op| == |op'|;
    CutEnd(a, b, OpText(op));
  }

  lemma LikeTells(a: string, b: string, op: string)
    requires op in SQL_OPERATORS
    ensures a + " LIKE ?" != b + OpText(op)
  {
    var s, t := a + " LIKE ?", b + OpText(op);
    assert s[|s| - 3] == 'E' && t[|t| - 3] == op[|op| - 1];
  }

  lemma ByOperatorIff(w: Record, t: Template, c: Column, op: string, v: Value)
    requires LeftSide(t, c) != "" && op in SQL_OPERATORS
    ensures Database(w)(LeftSide(t, c) + OpText(op), [v]) <==> SqlCompares(op, Seen(w, t, c), v)
  {
    var left := LeftSide(t, c);
    var text := left + OpText(op);
    ComparedIff(w, t, c, op, v);
    if ByOperator(w, text, v) {
      var a, op' :| op' in SQL_OPERATORS && text == a + OpText(op') && Compared(w, a, op', v);
      OperatorTells(left, op, a, op');
    }
    forall a ensures text != a + " LIKE ?" {
      LikeTells(a, left, op);
    }
  }

  lemma ByPatternIff(w: Record, t: Template, c: Column, v: Value)
    requires LeftSide(t, c) != ""
    ensures Database(w)(LeftSide(t, c) + " LIKE ?", [Pattern("%", v, "%")]) <==> w.contains(Seen(w, t, c), v)
    ensures Database(w)(LeftSide(t, c) + " LIKE ?", [ElementPattern(v)]) <==> w.has(Seen(w, t, c), v)
  {
    var left := LeftSide(t, c);
    var text := left + " LIKE ?";
    LikedIff(w, t, c, v);
    forall a, op | op in SQL_OPERATORS ensures text != a + OpText(op) {
      LikeTells(left, a, op);
    }
    forall a | text == a + " LIKE ?" ensures a == left {
      CutEnd(left, a, " LIKE ?");
    }
  }

  lemma ByCheckIff(w: Record, t: Template, c: Column)
    requires LeftSide(t, c) != ""
    ensures Database(w)(LeftSide(t, c) + " IS TRUE", []) <==> Seen(w, t, c) == Bool(true)
  {
    var left := LeftSide(t, c);
    var text := left + " IS TRUE";
    CheckedIff(w, t, c);
    forall a | text == a + " IS TRUE" ensures a == left {
      CutEnd(left, a, " IS TRUE");
    }
    var none: seq<Value> := [];
    assert Database(w)(text, none) == ByCheck(w, text) == Checked(w, left);
  }

  lemma SaysEveryColumn(w: Record, c: Column, op: string, v: Value)
    ensures SaysColumn(Database(w), w, c, op, v)
  {
    if op in SQL_OPERATORS {
      forall t | LeftSide(t, c) != ""
        ensures Database(w)(LeftSide(t, c) + OpText(op), [v]) <==> SqlCompares(op, Seen(w, t, c), v)
      {
        ByOperatorIff(w, t, c, op, v);
      }
      TailText(ColumnSQL(TimestampField, c, ""), op);
      TailText(ColumnSQL(ArrayLength, c, ""), op);
      assert LeftSide(TimestampField, c) + "" == LeftSide(TimestampField, c);
      assert LeftSide(ArrayLength, c) + "" == LeftSide(ArrayLength, c);
    }
  }

  lemma TailText(left: string, op: string)
    ensures left + " " + op + " ?" == left + OpText(op)
  {
  }

  lemma SaysEveryPattern(w: Record, c: Column, v: Value)
    ensures SaysPattern(Database(w), w, c, v)
  {
    if LeftSide(ContentLike, c) != "" { ByPatternIff(w, ContentLike, c, v); }
    if LeftSide(ContainsElement, c) != "" { ByPatternIff(w, ContainsElement, c, v); }
    if LeftSide(BooleanCheck, c) != "" { ByCheckIff(w, BooleanCheck, c); }
  }

  /** Whatever the record is, a database can read the templates faithfully. */
  lemma EveryRecordHasOne(w: Record)
    ensures Faithful(Database(w), w)
  {
    forall c, op, v ensures SaysColumn(Database(w), w, c, op, v) {
      SaysEveryColumn(w, c, op, v);
    }
    forall c, v ensures SaysPattern(Database(w), w, c, v) {
      SaysEveryPattern(w, c, v);
    }
  }
}
