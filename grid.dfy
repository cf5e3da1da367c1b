/** The result table: five rows of five cells stored row by row, as the
    code reaches them through `tds[row * 5 + col]`, and the texts written
    into it and into the status line. */
module Grid {

  /** One `td` of the table: its text and its class name. */
  datatype Cell = Cell(text: string, className: string)

  const Columns := 5
  const Rows := 5
  const CellCount := 25

  const Correct := "correct"
  const Wrong := "wrong"

  /** Where cell (row, col) sits in the table: `tds[row * 5 + col]`. */
  function Index(row: nat, col: nat): nat {
    row * Columns + col
  }

  /** A cell nothing has been written to. */
  const Blank := Cell("", "")

  /** The table before any guess. */
  function BlankGrid(): seq<Cell> {
    seq(CellCount, _ => Blank)
  }

  /** `td.textContent = guess[col]`: one character, or nothing when the
      guess is shorter, since indexing past the end of a string gives
      `undefined`, which sets an empty text. */
  function CharAt(guess: string, col: nat): string {
    if col < |guess| then [guess[col]] else ""
  }

  /** Every column correct. */
  predicate AllSet(flags: seq<bool>) {
    forall k :: 0 <= k < |flags| ==> flags[k]
  }

  /** The five cells written for a guess whose column col is correct
      exactly when `flags[col]`. */
  function RowCells(guess: string, flags: seq<bool>): (cells: seq<Cell>)
    requires |flags| == Columns
    ensures |cells| == Columns
    ensures forall col :: 0 <= col < Columns ==>
      cells[col].text == CharAt(guess, col) &&
      (cells[col].className == Correct <==> flags[col]) &&
      (cells[col].className == Wrong <==> !flags[col])
  {
    seq(Columns, col requires 0 <= col < Columns =>
      Cell(CharAt(guess, col), if flags[col] then Correct else Wrong))
  }

  /** The table with the five cells of `row` replaced by `cells`. */
  function WriteRow(grid: seq<Cell>, row: nat, cells: seq<Cell>): (g: seq<Cell>)
    requires |cells| == Columns && row * Columns + Columns <= |grid|
    ensures |g| == |grid|
    ensures forall k :: 0 <= k < |grid| ==>
      g[k] == if row * Columns <= k < row * Columns + Columns then cells[k - row * Columns] else grid[k]
  {
    grid[..row * Columns] + cells + grid[row * Columns + Columns..]
  }

  /** Decimal text of a count, as `"" + n` gives it for a non-negative integer. */
  function Decimal(n: nat): string {
    if n < 10 then [Digit(n)] else Decimal(n / 10) + [Digit(n % 10)]
  }

  function Digit(d: nat): char
    requires d < 10
  {
    ('0' as int + d) as char
  }

  /** The status line between guesses. */
  function AttemptsLeftMessage(n: nat): string {
    "You have " + Decimal(n) + " attempts left"
  }

  const Won := "You won!"

  /** The progress message never reads as the win message. */
  lemma AttemptsLeftIsNotWon(n: nat)
    ensures AttemptsLeftMessage(n) != Won
  {
    assert AttemptsLeftMessage(n)[4] == 'h';
  }
}
