/** Small records shared by every part of the program: coordinates (written Y first),
    dimensions, console colours, coloured characters, and the exceptions the C# code throws,
    modelled as values. */
module Common {

  /** The exceptions the program can throw; an operation that throws returns `Err`. */
  datatype Exception =
    | IndexOutOfRange
    | ArgumentOutOfRange
    | Argument
    | InvalidOperation
    | NullReference
    | Format
    | Overflow
    | DivideByZero

  datatype Result<+T> = Ok(value: T) | Err(error: Exception) {
    predicate IsFailure() { Err? }
    function PropagateFailure<U>(): Result<U>
      requires Err?
    {
      Err(error)
    }
    function Extract(): T
      requires Ok?
    {
      value
    }
  }

  datatype Outcome = Done | Fail(error: Exception)

  datatype Option<+T> = None | Some(value: T)

  /** A position on a grid: Y is the row, X is the column. */
  datatype Coordinate = Coordinate(Y: int, X: int) {
    function Plus(other: Coordinate): Coordinate {
      Coordinate(Y + other.Y, X + other.X)
    }
  }

  /** The "not found" coordinate. */
  const NotFound := Coordinate(-1, -1)

  datatype Dimension = Dimension(Rows: int, Cols: int)

  /** A console colour, numbered as .NET's ConsoleColor enumeration. */
  type Color = c: int | 0 <= c < 16

  const Black: Color := 0
  const Red: Color := 12
  const White: Color := 15

  /** A character with its foreground and background colour. */
  datatype ColoredChar = ColoredChar(Char: char, ForegroundColor: Color, BackgroundColor: Color)

  /** The default coloured character: a white space on black. */
  const Blank := ColoredChar(' ', White, Black)

  /** C#'s integer division, which truncates toward zero (Dafny's `/` is Euclidean). */
  function TruncDiv(a: int, b: int): (q: int)
    requires b != 0
    ensures b > 0 && a >= 0 ==> q == a / b
    ensures b > 0 && a < 0 ==> q == -((-a) / b)
  {
    if (a >= 0) == (b > 0) then
      (if a >= 0 then a / b else (-a) / (-b))
    else
      -((if a >= 0 then a else -a) / (if b > 0 then b else -b))
  }

  function Abs(x: int): nat {
    if x < 0 then -x else x
  }

  function Min(a: int, b: int): int {
    if a < b then a else b
  }
}
