/**
  What a filter expression means by itself, without SQL, and what is expected of a database that is given
  the texts of its leaves.
 */
module FilterMeaning {
  import opened Common
  import opened CelFilter

  /**
    What a filter is asked about: the cells of one entry by table, column and key, the lengths of its
    lists, and when a text contains a part and a list has an element.
   */
  datatype Record = Record(
    cell: (string, string, string) -> Value,
    length: (string, string, string) -> int,
    contains: (Value, Value) -> bool,
    has: (Value, Value) -> bool) {

    function Cell(c: Column): Value {
      cell(c.table, c.column, c.jsonkey)
    }

    function Length(c: Column): Value {
      Int(length(c.table, c.column, c.jsonkey))
    }
  }

  // ---------------------------------------------------------------------------------------------
  // Values
  // ---------------------------------------------------------------------------------------------

  /** The integer that an expression stands for in CEL, which is not bounded. */
  function CelInt(e: Expr, now: int): Option<int> {
    match e
    case Const(v) => if v.Int? then Some(v.i) else None
    case Call("now", _, args) => if args == [] then Some(now) else None
    case Call(fn, _, args) =>
      if |args| != 2 || CelInt(args[0], now).None? || CelInt(args[1], now).None? then None
      else
        var a, b := CelInt(args[0], now).value, CelInt(args[1], now).value;
        (match fn
         case "_-_" => Some(a - b)
         case "_*_" => Some(a * b)
         case "_+_" => Some(a + b)
         case _ => None)
    case _ => None
  }

  /** What a sum, a difference or a product is in 64 bits. */
  function InMachine(e: Expr, x: int): int {
    if e.Call? && e.fn != "now" && !In64(x) then Wrap64(x) else x
  }

  predicate In64(x: int) {
    -0x8000_0000_0000_0000 <= x < 0x8000_0000_0000_0000
  }

  /** The value that an expression is compared with: the exact one, modulo 2^64 where arithmetic does not fit. */
  function CelValue(e: Expr, now: int): Option<Value> {
    if e.Const? then Some(e.value)
    else match CelInt(e, now)
      case Some(x) => Some(Int(InMachine(e, x)))
      case None => None
  }

  // ---------------------------------------------------------------------------------------------
  // Conditions
  // ---------------------------------------------------------------------------------------------

  function CompareMeans(fn: string, args: seq<Expr>, now: int, w: Record): bool
    requires |args| == 2
  {
    var value := CelValue(args[1], now);
    value.Some? &&
    match args[0]
    case Ident(id) => ColumnOf(id).Some? && CelCompares(fn, w.Cell(ColumnOf(id).value), value.value)
    case Call("size", _, of) =>
      && |of| == 1 && of[0].Ident? && ColumnOf(of[0].name).Some?
      && CelCompares(fn, w.Length(ColumnOf(of[0].name).value), value.value)
    case _ => false
  }

  function HasMeans(id: string, e: Expr, w: Record): bool {
    e.Const? && ColumnOf(id).Some? && w.has(w.Cell(ColumnOf(id).value), e.value)
  }

  function ContainsMeans(target: Expr, args: seq<Expr>, w: Record): bool
    requires |args| == 1
  {
    && target.Ident? && ColumnOf(target.name).Some? && args[0].Const?
    && w.contains(w.Cell(ColumnOf(target.name).value), args[0].value)
  }

  function IdentMeans(id: string, w: Record): bool {
    ColumnOf(id).Some? && w.Cell(ColumnOf(id).value) == Bool(true)
  }

  /** The meaning of a filter expression, by itself. */
  function Means(e: Expr, now: int, w: Record): bool {
    match e
    case Call(fn, target, args) =>
      if fn == "_||_" && |args| == 2 then Means(args[0], now, w) || Means(args[1], now, w)
      else if fn == "_&&_" && |args| == 2 then Means(args[0], now, w) && Means(args[1], now, w)
      else if fn == "!_" && |args| == 1 then !Means(args[0], now, w)
      else if fn in COMPARISONS && |args| == 2 then CompareMeans(fn, args, now, w)
      else if fn == "@in" && |args| == 2 then
        if args[1].Ident? then HasMeans(args[1].name, args[0], w)
        else args[0].Ident? && exists v <- Elements(args[1]) :: HasMeans(args[0].name, v, w)
      else fn == "contains" && |args| == 1 && ContainsMeans(target, args, w)
    case Ident(id) => IdentMeans(id, w)
    case _ => false
  }

  /** No is_group, no empty list, and no function or constant where a condition is expected. */
  predicate Supported(e: Expr) {
    match e
    case Call(fn, target, args) =>
      if fn == "_||_" || fn == "_&&_" then |args| == 2 && Supported(args[0]) && Supported(args[1])
      else if fn == "!_" then |args| == 1 && Supported(args[0])
      else if fn in COMPARISONS then |args| == 2 && args[0] != Ident("is_group")
      else if fn == "@in" then |args| == 2 && (args[1].Ident? || Elements(args[1]) != [])
      else fn == "contains"
    case Ident(id) => id != "is_group"
    case _ => false
  }

  // ---------------------------------------------------------------------------------------------
  // What is accepted
  // ---------------------------------------------------------------------------------------------

  predicate HasType(v: Value, t: ValType) {
    (v.Int? && t.IntType?) || (v.Str? && t.StringType?) || (v.Bool? && t.BoolType?)
  }

  /** A column and a value of its type, ordered only for times; or the size of a list and an integer. */
  predicate WellCompared(fn: string, left: Expr, right: Expr, now: int, sizeable: set<string>) {
    && CelValue(right, now).Some?
    && match left
       case Ident(id) =>
         && ColumnOf(id).Some? && HasType(CelValue(right, now).value, ColumnOf(id).value.valtype)
         && (fn in {"_==_", "_!=_"} || id in COLUMNS_TIME)
       case Call("size", _, of) =>
         |of| == 1 && of[0].Ident? && of[0].name in sizeable && CelValue(right, now).value.Int?
       case _ => false
  }

  /** A constant in a list column, or a list column in a list of constants. */
  predicate WellListed(left: Expr, right: Expr) {
    if right.Ident? then right.name in COLUMNS_LIST && left.Const?
    else left.Ident? && left.name in COLUMNS_LIST && right.ListOf? && forall e <- right.elements :: e.Const?
  }

  /** The expressions that have a condition: the right number of operands, and these of the right types. */
  predicate WellTyped(e: Expr, now: int, sizeable: set<string>) {
    match e
    case Call(fn, target, args) =>
      if fn in {"_||_", "_&&_"} then |args| == 2 && WellTyped(args[0], now, sizeable) && WellTyped(args[1], now, sizeable)
      else if fn == "!_" then |args| == 1 && WellTyped(args[0], now, sizeable)
      else if fn in COMPARISONS then |args| == 2 && WellCompared(fn, args[0], args[1], now, sizeable)
      else if fn == "@in" then |args| == 2 && WellListed(args[0], args[1])
      else if fn == "contains" then
        && |args| == 1 && target.Ident? && ColumnOf(target.name).Some?
        && args[0].Const? && HasType(args[0].value, ColumnOf(target.name).value.valtype)
      else true
    case Ident(id) => ColumnOf(id).Some? && ColumnOf(id).value.valtype.BoolType?
    case _ => true
  }

  // ---------------------------------------------------------------------------------------------
  // The database
  // ---------------------------------------------------------------------------------------------

  /** A leaf text compares a value with its argument as its operator says. */
  predicate Compares(sql: (string, seq<Value>) -> bool, text: string, op: string, a: Value, v: Value) {
    op in SQL_OPERATORS ==> sql(text, [v]) == SqlCompares(op, a, v)
  }

  predicate SaysColumn(sql: (string, seq<Value>) -> bool, w: Record, c: Column, op: string, v: Value) {
    && (LeftSide(ContentCompare, c) != "" ==> Compares(sql, ColumnSQL(ContentCompare, c, op), op, w.Cell(c), v))
    && (LeftSide(BooleanCompare, c) != "" ==> Compares(sql, ColumnSQL(BooleanCompare, c, op), op, w.Cell(c), v))
    && (LeftSide(TimestampField, c) != "" ==> Compares(sql, ColumnSQL(TimestampField, c, "") + " " + op + " ?", op, w.Cell(c), v))
    && (LeftSide(ArrayLength, c) != "" ==> Compares(sql, ColumnSQL(ArrayLength, c, "") + " " + op + " ?", op, w.Length(c), v))
  }

  predicate SaysPattern(sql: (string, seq<Value>) -> bool, w: Record, c: Column, v: Value) {
    && (LeftSide(ContentLike, c) != "" ==>
          sql(ColumnSQL(ContentLike, c, ""), [Pattern("%", v, "%")]) == w.contains(w.Cell(c), v))
    && (LeftSide(ContainsElement, c) != "" ==>
          sql(ColumnSQL(ContainsElement, c, ""), [Pattern("%\"", v, "\"%")]) == w.has(w.Cell(c), v))
    && (LeftSide(BooleanCheck, c) != "" ==> sql(ColumnSQL(BooleanCheck, c, ""), []) == (w.Cell(c) == Bool(true)))
  }

  /**
    What the database is taken to do with a leaf: each template reads its own column, and compares it as
    the operator in the text says.
   */
  ghost predicate Faithful(sql: (string, seq<Value>) -> bool, w: Record) {
    && (forall c, op, v :: SaysColumn(sql, w, c, op, v))
    && (forall c, v :: SaysPattern(sql, w, c, v))
  }
}
