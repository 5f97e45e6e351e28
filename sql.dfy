/** SQLite values as the stores hold them: how node-sqlite3 binds a JavaScript
    parameter, how a column's type affinity converts what is stored or compared
    with it, and the SQL comparisons `=` and `!=` that WHERE clauses use. */
module Sql {
  import Js

  datatype Value = Null | Int(i: int) | Real(r: real) | Text(t: string)

  /** Parameter binding: undefined, null and NaN become NULL, booleans 1 or 0,
      numbers integers and strings text. */
  function Bind(v: Js.Value): (x: Value)
    ensures x.Null? <==> (v.Undefined? || v.Null? || v.NaN?)
    ensures x.Text? <==> v.Str?
    ensures v.Bool? ==> x == Int(if v.b then 1 else 0)
    ensures v.Num? ==> x == Int(v.n)
    ensures v.Str? ==> x == Text(v.s)
  {
    match v
    case Undefined => Null
    case Null => Null
    case Bool(b) => Int(if b then 1 else 0)
    case Num(n) => Int(n)
    case NaN => Null
    case Str(s) => Text(s)
  }

  /** Every id was handed out by an AUTOINCREMENT counter now at `lastId`. */
  predicate IdsWithin(ids: set<int>, lastId: int) {
    forall id :: id in ids ==> 1 <= id <= lastId
  }

  /** The affinity of a column, from its declared type. */
  datatype Affinity = IntegerAffinity | TextAffinity | BlobAffinity

  /** The number a text denotes under numeric affinity, if it is a well-formed
      numeral: an integer when the value is whole, a real otherwise. */
  function NumericText(t: string): Js.Option<Value> {
    if Js.Trim(t) == [] then Js.None
    else
      match Js.NumberOfText(t)
      case None => Js.None
      case Some(r) => Js.Some(if r == r.Floor as real then Int(r.Floor) else Real(r))
  }

  /** What a column of affinity `a` makes of the value `x` it stores or is compared with. */
  function Convert(a: Affinity, x: Value): Value {
    match a
    case IntegerAffinity =>
      (match x
       case Text(t) => (match NumericText(t) case None => x case Some(y) => y)
       case Real(r) => if r == r.Floor as real then Int(r.Floor) else x
       case _ => x)
    case TextAffinity =>
      // Bind never yields a real, so only integers need rendering.
      (match x case Int(i) => Text(Js.IntText(i)) case _ => x)
    case BlobAffinity => x
  }

  /** SQL `a = b` is true. A NULL operand makes the comparison NULL, which no
      WHERE clause accepts; numbers never equal texts. */
  predicate Equal(a: Value, b: Value) {
    match (a, b)
    case (Int(i), Int(j)) => i == j
    case (Int(i), Real(r)) => i as real == r
    case (Real(r), Int(j)) => r == j as real
    case (Real(r), Real(q)) => r == q
    case (Text(s), Text(t)) => s == t
    case _ => false
  }

  lemma EqualSymmetric(a: Value, b: Value)
    ensures Equal(a, b) == Equal(b, a)
  {
  }

  /** Two values equal to the same value equal each other, so a key that is
      unique under `=` is matched by at most one row. */
  lemma EqualThrough(p: Value, a: Value, b: Value)
    requires Equal(p, a) && Equal(p, b)
    ensures Equal(a, b)
  {
  }

  /** SQL `a != b` is true. */
  predicate NotEqual(a: Value, b: Value) {
    !a.Null? && !b.Null? && !Equal(a, b)
  }

  /** The id that `WHERE id = ?` selects, for an INTEGER PRIMARY KEY compared
      with a route parameter (a string); `None` when it selects no row. */
  function RowId(param: string): (r: Js.Option<int>)
    ensures r.Some? ==> !Js.IsNaNText(param)
  {
    match Convert(IntegerAffinity, Text(param))
    case Int(i) => Js.Some(i)
    case _ => Js.None
  }

  /** `WHERE id = ?`, with a route parameter, matches a row of `rows`. */
  predicate Selects<V>(rows: map<int, V>, param: string) {
    RowId(param).Some? && RowId(param).value in rows
  }

  /** Integer affinity reads every numeral as the integer it denotes. */
  lemma ConvertNumeral(s: string)
    requires s != [] && Js.AllDigits(s)
    ensures Convert(IntegerAffinity, Text(s)) == Int(Js.DigitsValue(s))
  {
    Js.TrimOfNumeral(s);
    Js.NumberOfNumeral(s);
  }

  /** Integer affinity reads back every integer written by `String(n)`. */
  lemma ConvertIntText(k: int)
    ensures Convert(IntegerAffinity, Text(Js.IntText(k))) == Int(k)
  {
    Js.TrimOfIntText(k);
    Js.NumberOfIntText(k);
    assert Js.IntText(k) != [];
  }

  /** Every id, as the client writes it into a URL, selects its own row. */
  lemma RowIdOfText(k: int)
    ensures RowId(Js.IntText(k)) == Js.Some(k)
  {
    ConvertIntText(k);
  }
}
