/** Shared vocabulary of the word-search generator: the six directions, grid
    coordinates, the path a word occupies, and the ASCII upper-casing applied
    to each word before it is placed. */
module GridTypes {

  /** The result of a search that may find nothing (Java's `null`). */
  datatype Option<T> = None | Some(value: T)

  /** The six orientations a word may take, in declaration order. */
  datatype Direction =
    | Horizontal
    | Vertical
    | Diagonal
    | HorizontalInverse
    | VerticalInverse
    | DiagonalInverse

  /** A cell of the grid: `x` is the row, `y` the column. */
  datatype Coordinate = Coordinate(x: int, y: int)

  /** Where a word was written: its first cell and its direction. */
  datatype Placement = Placement(start: Coordinate, dir: Direction)

  /** The directions in the order `Direction.values()` lists them. */
  const AllDirections: seq<Direction> :=
    [Horizontal, Vertical, Diagonal, HorizontalInverse, VerticalInverse, DiagonalInverse]

  predicate IsInverse(d: Direction) {
    d == HorizontalInverse || d == VerticalInverse || d == DiagonalInverse
  }

  /** The cell holding letter `i` of a word that starts at `c` and runs along `d`:
      each letter advances the row and column by the direction's step. */
  function PathCell(c: Coordinate, d: Direction, i: int): Coordinate {
    match d
    case Horizontal => Coordinate(c.x, c.y + i)
    case Vertical => Coordinate(c.x + i, c.y)
    case Diagonal => Coordinate(c.x + i, c.y + i)
    case HorizontalInverse => Coordinate(c.x, c.y - i)
    case VerticalInverse => Coordinate(c.x - i, c.y)
    case DiagonalInverse => Coordinate(c.x - i, c.y - i)
  }

  predicate InBounds(p: Coordinate, n: int) {
    0 <= p.x < n && 0 <= p.y < n
  }

  /** Every cell of a path of `len` letters lies inside the `n` x `n` grid. */
  predicate PathInBounds(c: Coordinate, d: Direction, len: int, n: int) {
    forall i :: 0 <= i < len ==> InBounds(PathCell(c, d, i), n)
  }

  /** `p` is one of the first `len` cells of the path from `c` along `d`. */
  predicate OnPath(p: Coordinate, c: Coordinate, d: Direction, len: int) {
    exists i :: 0 <= i < len && PathCell(c, d, i) == p
  }

  /** Two positions of one path are the same cell only when they are the
      same position: every direction's step is non-zero. */
  lemma PathCellInjective(c: Coordinate, d: Direction, i: int, j: int)
    ensures PathCell(c, d, i) == PathCell(c, d, j) <==> i == j
  {
  }

  /** How many steps along `d` from `c` reach the row or column of `p`. */
  function PathIndex(c: Coordinate, d: Direction, p: Coordinate): int {
    match d
    case Horizontal => p.y - c.y
    case Vertical => p.x - c.x
    case Diagonal => p.x - c.x
    case HorizontalInverse => c.y - p.y
    case VerticalInverse => c.x - p.x
    case DiagonalInverse => c.x - p.x
  }

  /** `p` is letter `PathIndex(c, d, p)` of a path of `len` letters. */
  predicate Covers(c: Coordinate, d: Direction, len: int, p: Coordinate) {
    0 <= PathIndex(c, d, p) < len && PathCell(c, d, PathIndex(c, d, p)) == p
  }

  /** `PathIndex` finds the position of a path cell, so `Covers` is exactly
      "lies on the path". */
  lemma CoversIffOnPath(c: Coordinate, d: Direction, len: int, p: Coordinate)
    ensures Covers(c, d, len, p) <==> OnPath(p, c, d, len)
    ensures forall i :: 0 <= i < len ==> PathIndex(c, d, PathCell(c, d, i)) == i
  {
    if Covers(c, d, len, p) {
      assert PathCell(c, d, PathIndex(c, d, p)) == p;
    }
  }

  /** The grid is an `n` x `n` character buffer. */
  predicate IsSquare(content: array2<char>) {
    content.Length0 == content.Length1
  }

  /** The character at cell `p`. */
  function At(content: array2<char>, p: Coordinate): char
    reads content
    requires InBounds(p, content.Length0) && IsSquare(content)
  {
    content[p.x, p.y]
  }

  /** Marker for a cell no word has claimed yet. */
  const Empty: char := '_'

  predicate IsCapital(ch: char) {
    'A' <= ch <= 'Z'
  }

  predicate IsLower(ch: char) {
    'a' <= ch <= 'z'
  }

  predicate IsAsciiLetter(ch: char) {
    IsCapital(ch) || IsLower(ch)
  }

  predicate AllLetters(word: seq<char>) {
    forall i :: 0 <= i < |word| ==> IsAsciiLetter(word[i])
  }

  /** ASCII upper-casing of one character: a lower-case letter becomes the
      capital at the same place in the alphabet, anything else is kept. */
  function UpperChar(ch: char): (r: char)
    ensures IsAsciiLetter(ch) <==> IsCapital(r)
    ensures IsLower(ch) ==> r as int - 'A' as int == ch as int - 'a' as int
    ensures !IsLower(ch) ==> r == ch
  {
    if IsLower(ch) then (ch as int - 32) as char else ch
  }

  /** ASCII upper-casing of a word (`toUpperCase` restricted to ASCII): same
      length, every letter becomes the capital of the same letter, every other
      character is kept. */
  function ToUpper(word: seq<char>): (r: seq<char>)
    ensures |r| == |word|
    ensures forall i :: 0 <= i < |word| ==> (IsAsciiLetter(word[i]) <==> IsCapital(r[i]))
    ensures forall i :: 0 <= i < |word| && IsLower(word[i]) ==> r[i] as int - 'A' as int == word[i] as int - 'a' as int
    ensures forall i :: 0 <= i < |word| && !IsLower(word[i]) ==> r[i] == word[i]
  {
    seq(|word|, i requires 0 <= i < |word| => UpperChar(word[i]))
  }

  /** Upper-casing twice is upper-casing once, and a word without the empty
      marker keeps none after upper-casing. */
  lemma ToUpperIdempotent(word: seq<char>)
    ensures ToUpper(ToUpper(word)) == ToUpper(word)
    ensures Empty !in word ==> Empty !in ToUpper(word)
  {
  }

  /** A word of letters becomes a word of capitals. */
  lemma LettersBecomeCapitals(word: seq<char>)
    requires AllLetters(word)
    ensures forall i :: 0 <= i < |word| ==> IsCapital(ToUpper(word)[i])
  {
  }
}
