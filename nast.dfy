/**
 * The parts of the extended-language tree and of the base-language program that the
 * converter's packer and line-count check look at.
 */
module Nast {

  /** A source position (1-based line and column); the zero value is `Position(0, 0)`. */
  datatype Position = Position(line: nat, column: nat)

  /** A flat base-language statement. The packer never looks inside one: it only moves
      statements between lines and asks the printer how long a line is. */
  datatype Statement = Statement(code: string)

  /**
   * A line of statements, with its optional jump label (`""` when it has none). `hasEOL` forbids appending any following line to this one;
   * `hasBOL` forbids appending this line to the line before it.
   */
  datatype StatementLine = StatementLine(
    lineLabel: string,
    statements: seq<Statement>,
    position: Position,
    hasEOL: bool,
    hasBOL: bool)

  /** A top-level element of a program: after lowering every one should be a statement line. */
  datatype Element = StatementLineElement(line: StatementLine) | Unconverted(kind: string)

  /** A line of the emitted base-language program. */
  datatype Line = Line(position: Position, statements: seq<Statement>)

  /** The structural errors the converter reports. */
  datatype Error =
    | LineTooLong(start: Position)
    | UnconvertedElement(kind: string)
    | ProgramTooLarge
    | Collaborator(message: string)

  /** A base-language program has at most this many lines. */
  const MaxLines: nat := 20

  /** The message each error carries. */
  function Message(e: Error): string
  {
    match e
    case LineTooLong(_) =>
      "The line is too long (>70 characters) to be converted to yolol, even after optimization."
    case UnconvertedElement(kind) => "Err: Found unconverted nolol-element: " + kind
    case ProgramTooLarge => "Program is too large to be compiled into 20 lines of yolol."
    case Collaborator(message) => message
  }

  /** The span reported with `ProgramTooLarge`: line 1, column 1 to line 30, column 70. */
  const TooLargeStart: Position := Position(1, 1)
  const TooLargeEnd: Position := Position(30, 70)

  /** The decimal digits of `n`, as `strconv.Itoa` writes them. */
  function Decimal(n: nat): (s: string)
    ensures |s| > 0
    ensures forall k :: 0 <= k < |s| ==> '0' <= s[k] <= '9'
  {
    var digit := [('0' as int + n % 10) as char];
    if n < 10 then digit else Decimal(n / 10) + digit
  }

  /** The number a string of decimal digits denotes. */
  function DecimalValue(s: string): nat
    requires forall k :: 0 <= k < |s| ==> '0' <= s[k] <= '9'
  {
    if s == [] then 0 else DecimalValue(s[..|s| - 1]) * 10 + (s[|s| - 1] as int - '0' as int)
  }

  /** `Decimal` loses nothing: its digits denote the number printed, so distinct numbers print differently. */
  lemma {:induction false} DecimalRoundTrip(n: nat)
    ensures DecimalValue(Decimal(n)) == n
  {
    var digit := [('0' as int + n % 10) as char];
    if n >= 10 {
      var s := Decimal(n / 10);
      DecimalRoundTrip(n / 10);
      assert (s + digit)[..|s + digit| - 1] == s;
    }
  }
}
