/**
 * The expressions the solver records: a tree over tile positions whose
 * internal nodes are the four game operations. The source builds the same
 * expressions as parenthesised strings; `Render` produces that text.
 */
module Expressions {
  import opened Bits

  /** The four operations of the game (`'+' | '-' | '*' | '/'`). */
  datatype Operation = Add | Sub | Mul | Div

  /** The solver keeps a value only when it lies in `(0, Limit]`. */
  const Limit: int := 50000

  predicate InRange(v: int)
  {
    0 < v <= Limit
  }

  /** A leaf names a tile position; a node applies an operation to two sub-expressions. */
  datatype Expr = Tile(index: nat) | Node(op: Operation, left: Expr, right: Expr)

  /** The arithmetic of one step; a division by zero, which no legal step performs, yields 0. */
  function Apply(op: Operation, x: int, y: int): int
  {
    match op
    case Add => x + y
    case Sub => x - y
    case Mul => x * y
    case Div => if y == 0 then 0 else x / y
  }

  /** The value of an expression over the given tile values. */
  function Eval(tiles: seq<int>, e: Expr): int
  {
    match e
    case Tile(i) => if i < |tiles| then tiles[i] else 0
    case Node(op, l, r) => Apply(op, Eval(tiles, l), Eval(tiles, r))
  }

  /** The mask of tile positions an expression mentions. */
  function Uses(e: Expr): nat
  {
    match e
    case Tile(i) => Pow2(i)
    case Node(_, l, r) => Or(Uses(l), Uses(r))
  }

  /**
   * A legal expression mentions only existing tiles, uses each tile at most
   * once (the two sides of a node share no position), keeps every
   * intermediate result in `(0, Limit]`, subtracts only a smaller value from
   * a larger one and divides only exactly.
   */
  ghost predicate Legal(tiles: seq<int>, e: Expr)
  {
    match e
    case Tile(i) => i < |tiles|
    case Node(op, l, r) =>
      Legal(tiles, l) && Legal(tiles, r) &&
      And(Uses(l), Uses(r)) == 0 &&
      InRange(Eval(tiles, e)) &&
      (op == Sub ==> Eval(tiles, l) > Eval(tiles, r)) &&
      (op == Div ==> Eval(tiles, r) != 0 && Eval(tiles, l) % Eval(tiles, r) == 0)
  }

  function OpSymbol(op: Operation): char
  {
    match op
    case Add => '+'
    case Sub => '-'
    case Mul => '*'
    case Div => '/'
  }

  function NatToString(n: nat): string
  {
    if n < 10 then ["0123456789"[n]] else NatToString(n / 10) + ["0123456789"[n % 10]]
  }

  /** The decimal text of an integer. */
  function IntToString(v: int): string
  {
    if v < 0 then "-" + NatToString(-v) else NatToString(v)
  }

  /** The text the source builds: a leaf is its tile's value, a node is `(left op right)`. */
  function Render(tiles: seq<int>, e: Expr): string
  {
    match e
    case Tile(_) => IntToString(Eval(tiles, e))
    case Node(op, l, r) => "(" + Render(tiles, l) + [OpSymbol(op)] + Render(tiles, r) + ")"
  }
}
