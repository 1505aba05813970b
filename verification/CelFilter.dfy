/**
  Filter expressions and the columns they speak about (pkg/cel/columns.go, pkg/cel/expr.go,
  pkg/cel/templates.go): what a leaf of a filter becomes in SQLite.
 */
module CelFilter {
  import opened Common

  datatype Value = Str(s: string) | Int(i: int) | Bool(b: bool) | Number(r: real) | Pattern(before: string, value: Value, after: string)

  /** A parsed CEL expression. Calls without a receiver have target Absent. */
  datatype Expr =
    | Call(fn: string, target: Expr, args: seq<Expr>)
    | Ident(name: string)
    | Const(value: Value)
    | ListOf(elements: seq<Expr>)
    | Absent

  datatype ValType = IntType | StringType | BoolType | StringList

  /** Names of tables, columns and keys: small letters and underscores. */
  type Name = s: string | forall i :: 0 <= i < |s| ==> s[i] == '_' || 'a' <= s[i] <= 'z'

  datatype Column = Column(table: Name, column: Name, jsonkey: Name, valtype: ValType)

  /** Columns of the entry table. */
  function EntryColumn(id: string): Option<Column> {
    match id
    case "id" => Some(Column("entry", "id", "", IntType))
    case "aliases" => Some(Column("entry", "aliases", "", StringType))
    case "kind" => Some(Column("entry", "kind", "", StringType))
    case "is_group" => Some(Column("entry", "is_group", "", BoolType))
    case "size" => Some(Column("entry", "size", "", IntType))
    case "owner" => Some(Column("entry", "owner", "", IntType))
    case "group_owner" => Some(Column("entry", "group_owner", "", IntType))
    case "created_at" => Some(Column("entry", "created_at", "", IntType))
    case "changed_at" => Some(Column("entry", "changed_at", "", IntType))
    case "modified_at" => Some(Column("entry", "modified_at", "", IntType))
    case "access_at" => Some(Column("entry", "access_at", "", IntType))
    case _ => None
  }

  /** Columns of the children table. */
  function ChildColumn(id: string): Option<Column> {
    match id
    case "parent" => Some(Column("children", "parent", "", IntType))
    case "child" => Some(Column("children", "child", "", IntType))
    case "name" => Some(Column("children", "name", "", StringType))
    case _ => None
  }

  /** Keys of the properties, the document properties and the group properties. */
  function PropertyColumn(id: string): Option<Column> {
    match id
    case "tag" => Some(Column("property", "value", "tags", StringType))
    case "tags" => Some(Column("property", "value", "tags", StringList))
    case "url" => Some(Column("property", "value", "url", StringType))
    case "site" => Some(Column("property", "value", "site", StringType))
    case "index_version" => Some(Column("property", "value", "index_version", StringType))
    case "summarize" => Some(Column("property", "value", "summarize", StringType))
    case "group.source" => Some(Column("egroup", "value", "source", StringType))
    case _ => None
  }

  function DocumentColumn(id: string): Option<Column> {
    match id
    case "title" => Some(Column("document", "value", "title", StringType))
    case "abstract" => Some(Column("document", "value", "abstract", StringType))
    case "notes" => Some(Column("document", "value", "notes", StringType))
    case "keyword" => Some(Column("document", "value", "keywords", StringType))
    case "keywords" => Some(Column("document", "value", "keywords", StringList))
    case "unread" => Some(Column("document", "value", "unread", BoolType))
    case "marked" => Some(Column("document", "value", "marked", BoolType))
    case _ => None
  }

  function ColumnOf(id: string): Option<Column> {
    if EntryColumn(id).Some? then EntryColumn(id)
    else if ChildColumn(id).Some? then ChildColumn(id)
    else if PropertyColumn(id).Some? then PropertyColumn(id)
    else DocumentColumn(id)
  }

  predicate Comparable(id: string) {
    ColumnOf(id).Some? && !ColumnOf(id).value.valtype.StringList?
  }

  predicate IsBool(id: string) {
    ColumnOf(id).Some? && ColumnOf(id).value.valtype.BoolType?
  }

  const COLUMNS_LIST := {"tag", "tags", "keyword", "keywords"}
  const COLUMNS_TIME := {"created_at", "changed_at", "modified_at", "access_at"}

  /** CheckValueType: the constant fits the column. */
  predicate FitsColumn(id: string, v: Value) {
    ColumnOf(id).Some? &&
    match ColumnOf(id).value.valtype
    case IntType => v.Int?
    case StringType => v.Str?
    case BoolType => v.Bool?
    case StringList => false
  }

  // ---------------------------------------------------------------------------------------------
  // Values
  // ---------------------------------------------------------------------------------------------

  function Wrap64(x: int): int {
    (x + 0x8000_0000_0000_0000) % 0x1_0000_0000_0000_0000 - 0x8000_0000_0000_0000
  }

  function Arith(fn: string, a: int, b: int): int {
    Wrap64(if fn == "_-_" then a - b else if fn == "_*_" then a * b else a + b)
  }

  /** GetExprValue: a constant, the time, or integer arithmetic on such. */
  function ExprValue(e: Expr, now: int): Option<Value> {
    match e
    case Const(v) => Some(v)
    case Call("now", _, args) => if args == [] then Some(Int(now)) else None
    case Call(fn, _, args) =>
      if fn !in {"_-_", "_*_", "_+_"} || |args| != 2 then None
      else
        var a, b := ExprValue(args[0], now), ExprValue(args[1], now);
        if a.Some? && a.value.Int? && b.Some? && b.value.Int? then Some(Int(Arith(fn, a.value.i, b.value.i))) else None
    case _ => None
  }

  function ConstValues(es: seq<Expr>): Option<seq<Value>> {
    if es == [] then Some([])
    else if !es[0].Const? || ConstValues(es[1..]).None? then None
    else Some([es[0].value] + ConstValues(es[1..]).value)
  }

  /** GetParameterValue for contains_element: the quoted element inside wildcards. */
  function ElementPattern(v: Value): Value {
    Pattern("%\"", v, "\"%")
  }

  // ---------------------------------------------------------------------------------------------
  // Templates
  // ---------------------------------------------------------------------------------------------

  function ColumnName(c: Column): string {
    "`" + c.table + "`.`" + c.column + "`"
  }

  /** An SQL function call. */
  function CallText(f: string, args: string): string {
    f + "(" + args + ")"
  }

  function JsonValue(c: Column): string {
    CallText("JSON_EXTRACT", ColumnName(c) + ", '$." + c.jsonkey + "'")
  }

  /** The value of the key, or something else when it is missing. */
  function JsonOr(c: Column, other: string): string {
    CallText("COALESCE", JsonValue(c) + (", " + other))
  }

  datatype Template =
    | ContentCompare | ContentLike | TimestampField | ContainsElement | BooleanCompare | BooleanCheck | ArrayLength

  /** GetSQL for SQLite: empty when there is no such column or no such template for it. */
  function GetSQL(template: Template, id: string, op: string): string {
    if ColumnOf(id).None? then "" else ColumnSQL(template, ColumnOf(id).value, op)
  }

  /** The value that a template speaks about; empty when the template does not exist for the column. */
  function LeftSide(template: Template, c: Column): string {
    if c.jsonkey == "" then
      if template in {ContentCompare, ContentLike, TimestampField} then ColumnName(c) else ""
    else
      match template
      case BooleanCompare => JsonOr(c, "false")
      case BooleanCheck => JsonOr(c, "false")
      case ArrayLength => CallText("JSON_ARRAY_LENGTH", JsonOr(c, CallText("JSON_ARRAY", "")))
      case TimestampField => ""
      case _ => JsonValue(c)
  }

  /** What a template says about it. */
  function RightSide(template: Template, op: string): string {
    match template
    case ContentCompare => " " + op + " ?"
    case BooleanCompare => " " + op + " ?"
    case ContentLike => " LIKE ?"
    case ContainsElement => " LIKE ?"
    case BooleanCheck => " IS TRUE"
    case _ => ""
  }

  function ColumnSQL(template: Template, c: Column, op: string): string {
    if LeftSide(template, c) == "" then "" else LeftSide(template, c) + RightSide(template, op)
  }

  lemma ValueText(c: Column)
    ensures JsonValue(c) == "JSON_EXTRACT(`" + c.table + "`.`" + c.column + "`, '$." + c.jsonkey + "')"
  {
    var rest := ColumnName(c) + ", '$." + c.jsonkey + "'" + ")";
    assert JsonValue(c) == "JSON_EXTRACT(" + rest;
    assert rest == "`" + (c.table + "`.`" + c.column + "`, '$." + c.jsonkey + "')");
    assert "JSON_EXTRACT(" + "`" == "JSON_EXTRACT(`";
  }

  lemma BooleanTexts(value: string, op: string)
    ensures CallText("COALESCE", value + (", " + "false")) + (" " + op + " ?") == "COALESCE(" + value + ", false) " + op + " ?"
    ensures CallText("COALESCE", value + (", " + "false")) + " IS TRUE" == "COALESCE(" + value + ", false) IS TRUE"
  {
    assert CallText("COALESCE", value + (", " + "false")) == "COALESCE(" + value + ", false)";
    assert ", false)" + " " == ", false) ";
    assert ", false)" + " IS TRUE" == ", false) IS TRUE";
  }

  lemma LengthText(value: string)
    ensures CallText("JSON_ARRAY_LENGTH", CallText("COALESCE", value + (", " + CallText("JSON_ARRAY", ""))))
         == "JSON_ARRAY_LENGTH(COALESCE(" + value + ", JSON_ARRAY()))"
  {
    assert ", " + CallText("JSON_ARRAY", "") + ")" + ")" == ", JSON_ARRAY()))";
    assert "JSON_ARRAY_LENGTH" + "(" + "COALESCE" + "(" == "JSON_ARRAY_LENGTH(COALESCE(";
  }

  /** The SQL of each template for a column of a table. */
  lemma PlainTexts(c: Column, op: string)
    requires c.jsonkey == ""
    ensures ColumnSQL(ContentCompare, c, op) == "`" + c.table + "`.`" + c.column + "` " + op + " ?"
    ensures ColumnSQL(ContentLike, c, op) == "`" + c.table + "`.`" + c.column + "` LIKE ?"
    ensures ColumnSQL(TimestampField, c, op) == "`" + c.table + "`.`" + c.column + "`"
    ensures forall t :: t in {ContainsElement, BooleanCompare, BooleanCheck, ArrayLength} ==> ColumnSQL(t, c, op) == ""
  {
    var left := "`" + c.table + "`.`" + c.column;
    assert ColumnName(c) == left + "`";
    assert ColumnName(c) + (" " + op + " ?") == left + ("`" + " ") + op + " ?";
    assert "`" + " " == "` ";
    assert ColumnName(c) + " LIKE ?" == left + ("`" + " LIKE ?");
    assert "`" + " LIKE ?" == "` LIKE ?";
  }

  /** The SQL of each template for a key of the properties. */
  lemma KeyTexts(c: Column, op: string)
    requires c.jsonkey != ""
    ensures var value := "JSON_EXTRACT(`" + c.table + "`.`" + c.column + "`, '$." + c.jsonkey + "')";
            && ColumnSQL(ContentCompare, c, op) == value + " " + op + " ?"
            && ColumnSQL(ContentLike, c, op) == ColumnSQL(ContainsElement, c, op) == value + " LIKE ?"
            && ColumnSQL(BooleanCompare, c, op) == "COALESCE(" + value + ", false) " + op + " ?"
            && ColumnSQL(BooleanCheck, c, op) == "COALESCE(" + value + ", false) IS TRUE"
            && ColumnSQL(ArrayLength, c, op) == "JSON_ARRAY_LENGTH(COALESCE(" + value + ", JSON_ARRAY()))"
            && ColumnSQL(TimestampField, c, op) == ""
  {
    var value := JsonValue(c);
    ValueText(c);
    BooleanTexts(value, op);
    LengthText(value);
    assert value + (" " + op + " ?") == value + " " + op + " ?";
  }

  function OperatorOf(fn: string): string {
    match fn
    case "_==_" => "="
    case "_!=_" => "!="
    case "_<_" => "<"
    case "_>_" => ">"
    case "_<=_" => "<="
    case "_>=_" => ">="
    case _ => "="
  }

  const SQL_OPERATORS := {"=", "!=", "<", ">", "<=", ">="}

  predicate Less(a: Value, b: Value) {
    a.Int? && b.Int? && a.i < b.i
  }

  /** A comparison in SQL. */
  predicate SqlCompares(op: string, a: Value, b: Value) {
    match op
    case "=" => a == b
    case "!=" => a != b
    case "<" => Less(a, b)
    case ">" => Less(b, a)
    case "<=" => Less(a, b) || a == b
    case ">=" => Less(b, a) || a == b
    case _ => false
  }

  /** A comparison in CEL. */
  predicate CelCompares(fn: string, a: Value, b: Value) {
    match fn
    case "_==_" => a == b
    case "_!=_" => a != b
    case "_<_" => Less(a, b)
    case "_>_" => Less(b, a)
    case "_<=_" => Less(a, b) || a == b
    case "_>=_" => Less(b, a) || a == b
    case _ => false
  }

  lemma OperatorMeans(fn: string, a: Value, b: Value)
    requires fn in COMPARISONS
    ensures OperatorOf(fn) in SQL_OPERATORS && (SqlCompares(OperatorOf(fn), a, b) <==> CelCompares(fn, a, b))
  {
  }

  const COMPARISONS := {"_==_", "_!=_", "_<_", "_>_", "_<=_", "_>=_"}

  /** What a leaf writes: its text, which may be empty, and its arguments. */
  datatype LeafSql = Refused | Accepted(text: string, args: seq<Value>)

  /** A comparison; `sizeable` are the columns that size() accepts. */
  function CompareLeaf(fn: string, args: seq<Expr>, now: int, sizeable: set<string>): LeafSql
    requires |args| == 2
  {
    var value, op := ExprValue(args[1], now), OperatorOf(fn);
    if args[0].Call? && args[0].fn == "size" then
      if |args[0].args| != 1 || !args[0].args[0].Ident? || args[0].args[0].name !in sizeable then Refused
      else if value.None? || !value.value.Int? then Refused
      else Accepted(GetSQL(ArrayLength, args[0].args[0].name, "") + " " + op + " ?", [value.value])
    else if !args[0].Ident? || !Comparable(args[0].name) || value.None? then Refused
    else
      var id := args[0].name;
      if id in COLUMNS_TIME then
        if value.value.Int? then Accepted(GetSQL(TimestampField, id, "") + " " + op + " ?", [value.value]) else Refused
      else if IsBool(id) then
        if op in {"=", "!="} && value.value.Bool? then Accepted(GetSQL(BooleanCompare, id, op), [value.value]) else Refused
      else if op in {"=", "!="} && FitsColumn(id, value.value) then Accepted(GetSQL(ContentCompare, id, op), [value.value])
      else Refused
  }

  function ContainsLeaf(target: Expr, args: seq<Expr>): LeafSql
    requires |args| == 1
  {
    if !target.Ident? || !args[0].Const? || !FitsColumn(target.name, args[0].value) then Refused
    else Accepted(GetSQL(ContentLike, target.name, ""), [Pattern("%", args[0].value, "%")])
  }

  function ElementLeaf(id: string, v: Value): LeafSql {
    Accepted(GetSQL(ContainsElement, id, ""), [ElementPattern(v)])
  }

  /** A boolean column by itself. */
  function IdentLeaf(id: string): LeafSql {
    if IsBool(id) then Accepted(GetSQL(BooleanCheck, id, ""), []) else Refused
  }

  /** The elements of a list expression; none for any other expression. */
  function Elements(e: Expr): seq<Expr> {
    if e.ListOf? then e.elements else []
  }
}
