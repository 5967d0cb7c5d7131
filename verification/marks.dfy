/** The characters a cell of either grid can hold, as the `Marks` enum names them,
    and the hint digits '1'..'8'. */
module Marks {

  /** A mine in the true field (also the mine character of `updateWithNumbers`). */
  const Mine: char := 'X'
  /** A cell the player has marked as a suspected mine. */
  const Marked: char := '*'
  /** An unknown cell; also a true-field cell with no adjacent mine. */
  const Unmarked: char := '.'
  /** A cell the flood fill has explored and found empty. */
  const Explored: char := '/'

  /** The value of a digit character, '0' being zero. */
  function DigitValue(d: char): int {
    d as int - '0' as int
  }

  /** `fieldIsNumber`'s test: the character is one of "12345678". */
  function IsNumber(c: char): (r: bool)
    ensures r <==> '1' <= c <= '8'
    ensures r ==> 1 <= DigitValue(c) <= 8
  {
    c in "12345678"
  }

  /** The `when` of `updateWithNumbers` that turns a non-zero mine count into its digit;
      every count from 8 upwards (and any other value) falls to the `else` branch. */
  function HintDigit(n: int): (d: char)
    ensures IsNumber(d)
    ensures 1 <= n <= 8 ==> DigitValue(d) == n
    ensures !(1 <= n <= 7) ==> d == '8'
  {
    match n
    case 1 => '1'
    case 2 => '2'
    case 3 => '3'
    case 4 => '4'
    case 5 => '5'
    case 6 => '6'
    case 7 => '7'
    case _ => '8'
  }
}
