/** The query the `book/search` route hands to the store: a boolean tree of
    field comparisons, and what it means for a single book. */
module Query {
  import opened Api
  import opened Catalog

  /** The `Book.Key` columns a search filter may name. */
  datatype Field = Name | Isbn | ClassifyId | State

  /** The Fluent comparison operators the routes use (`.equals` is the
      default of `filter(key, value)`). */
  datatype Op = Equals | NotEquals | Contains

  datatype Value = Str(s: string) | Int(i: int)

  /** A filter: one comparison, an `and` group, an `or` group, or no filter
      (a plain `Book.makeQuery()`). */
  datatype Expr =
    | Leaf(field: Field, op: Op, value: Value)
    | And(terms: seq<Expr>)
    | Or(terms: seq<Expr>)
    | NoFilter

  predicate IsTextField(f: Field) {
    f == Name || f == Isbn
  }

  /** The column `f` of book `b`: the `Book.Key` columns the search route
      filters on (`name`, `isbn`, `classifyId`, `state`). A text column
      yields a string value, a number column an integer. */
  function Column(b: Book, f: Field): (v: Value)
    ensures v.Str? <==> IsTextField(f)
  {
    match f
    case Name => Str(b.name)
    case Isbn => Str(b.isbn)
    case ClassifyId => Int(b.classifyId)
    case State => Int(b.state)
  }

  /** `key` occurs somewhere in `s` as a contiguous run. */
  predicate HasSubstring(s: string, key: string)
    decreases |s|
  {
    key <= s || (|s| > 0 && HasSubstring(s[1..], key))
  }

  predicate Compare(op: Op, actual: Value, expected: Value) {
    match op
    case Equals => actual == expected
    case NotEquals => actual != expected
    case Contains => actual.Str? && expected.Str? && HasSubstring(actual.s, expected.s)
  }

  /** Whether book `b` is selected by filter `e`. */
  predicate Matches(e: Expr, b: Book)
    decreases e
  {
    match e
    case Leaf(f, op, v) => Compare(op, Column(b, f), v)
    case And(es) => forall i | 0 <= i < |es| :: Matches(es[i], b)
    case Or(es) => exists i | 0 <= i < |es| :: Matches(es[i], b)
    case NoFilter => true
  }

  /** Groups are non-empty, hold no `NoFilter`, and every comparison agrees
      with the type of the column it names (`contains` only on text). */
  predicate WellFormed(e: Expr)
    decreases e
  {
    match e
    case Leaf(f, op, v) => (v.Str? <==> IsTextField(f)) && (op == Contains ==> IsTextField(f))
    case And(es) => |es| > 0 && forall i | 0 <= i < |es| :: !es[i].NoFilter? && WellFormed(es[i])
    case Or(es) => |es| > 0 && forall i | 0 <= i < |es| :: !es[i].NoFilter? && WellFormed(es[i])
    case NoFilter => true
  }

  /** What the search route is meant to list, said of one book: the search
      key (in the name or the ISBN) wins; else the category, approved books
      only; else everything. */
  predicate Wanted(searchKey: Option<string>, categoryId: Option<int>, b: Book) {
    match searchKey
    case Some(key) => HasSubstring(b.name, key) || HasSubstring(b.isbn, key)
    case None =>
      match categoryId
      case Some(id) => b.classifyId == id && IsApproved(b)
      case None => true
  }

  /** The query the `book/search` route builds: exactly one of the three
      policies, first match wins. */
  function SearchQuery(searchKey: Option<string>, categoryId: Option<int>): (q: Expr)
    ensures WellFormed(q)
    ensures q.NoFilter? <==> searchKey.None? && categoryId.None?
    ensures forall b :: Matches(q, b) <==> Wanted(searchKey, categoryId, b)
  {
    match searchKey
    case Some(key) =>
      var q := Or([Leaf(Name, Contains, Str(key)), Leaf(Isbn, Contains, Str(key))]);
      assert forall b :: Matches(q, b) <==> Matches(q.terms[0], b) || Matches(q.terms[1], b);
      q
    case None =>
      match categoryId
      case Some(id) =>
        var q := And([Leaf(ClassifyId, Equals, Int(id)), Leaf(State, NotEquals, Int(UNAPPROVED))]);
        assert forall b :: Matches(q, b) <==> Matches(q.terms[0], b) && Matches(q.terms[1], b);
        q
      case None => NoFilter
  }
}
