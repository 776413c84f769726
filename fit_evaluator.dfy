/** Deciding whether a word can be written from a given cell in a given
    direction (`doesFit`), and choosing a direction that fits
    (`getDirectionForFit`). Neither changes the grid. */
module FitEvaluator {
  import opened GridTypes

  /** The grid size as the generator reads it: the length of row 0. */
  function GridSize(content: array2<char>): int {
    content.Length1
  }

  /** The per-direction bounds test that precedes the emptiness scan. The
      forward directions need `start + len <= n`; the inverse directions reject
      a start coordinate below `len` on every axis they move along, which is
      one cell stricter than what staying inside the grid needs. */
  predicate BoundsCheck(c: Coordinate, d: Direction, len: int, n: int) {
    match d
    case Horizontal => !(c.y + len > n)
    case Vertical => !(c.x + len > n)
    case Diagonal => !(c.x + len > n || c.y + len > n)
    case HorizontalInverse => !(c.y < len)
    case VerticalInverse => !(c.x < len)
    case DiagonalInverse => !(c.x < len || c.y < len)
  }

  /** The conservative bounds test is sound: when it passes, every cell the
      word would occupy is inside the grid. */
  lemma BoundsCheckInBounds(c: Coordinate, d: Direction, len: int, n: int)
    requires InBounds(c, n) && BoundsCheck(c, d, len, n)
    ensures PathInBounds(c, d, len, n)
  {
  }

  /** `doesFit`: the bounds test passes and every cell of the path still holds
      the empty marker. */
  predicate Fits(content: array2<char>, word: seq<char>, c: Coordinate, d: Direction)
    reads content
    requires IsSquare(content) && InBounds(c, GridSize(content))
  {
    BoundsCheck(c, d, |word|, GridSize(content)) &&
    (BoundsCheckInBounds(c, d, |word|, GridSize(content));
     forall i :: 0 <= i < |word| ==> At(content, PathCell(c, d, i)) == Empty)
  }

  /** A fitting word lies inside the grid and covers only empty cells. */
  lemma FitsSound(content: array2<char>, word: seq<char>, c: Coordinate, d: Direction)
    requires IsSquare(content) && InBounds(c, GridSize(content))
    requires Fits(content, word, c, d)
    ensures PathInBounds(c, d, |word|, GridSize(content))
    ensures forall i :: 0 <= i < |word| ==> At(content, PathCell(c, d, i)) == Empty
  {
  }

  /** The inverse directions keep one spare cell: the cell one step beyond the
      word's last letter must still be inside the grid. */
  predicate InverseMargin(c: Coordinate, d: Direction, len: int, n: int) {
    IsInverse(d) ==> InBounds(PathCell(c, d, len), n)
  }

  /** Exact characterisation of `doesFit`: a word fits if and only if its path
      is inside the grid, every cell on it is empty, and (for an inverse
      direction) the cell after its last letter is inside the grid too. */
  lemma FitsExactly(content: array2<char>, word: seq<char>, c: Coordinate, d: Direction)
    requires IsSquare(content) && InBounds(c, GridSize(content))
    ensures Fits(content, word, c, d) <==>
      var n := GridSize(content);
      PathInBounds(c, d, |word|, n) &&
      (forall i :: 0 <= i < |word| ==> At(content, PathCell(c, d, i)) == Empty) &&
      (|word| > 0 ==> InverseMargin(c, d, |word|, n))
  {
    var n, len := GridSize(content), |word|;
    if PathInBounds(c, d, len, n) && (len > 0 ==> InverseMargin(c, d, len, n)) {
      if len > 0 {
        assert InBounds(PathCell(c, d, len - 1), n);
      }
      assert BoundsCheck(c, d, len, n);
    }
  }

  /** An inverse-direction word whose last letter would land on row or column 0
      is rejected even though every cell of its path is inside the grid. */
  lemma InverseEndingAtEdgeRejected(content: array2<char>, word: seq<char>, c: Coordinate, d: Direction)
    requires IsSquare(content) && InBounds(c, GridSize(content))
    requires IsInverse(d) && |word| > 0
    requires d == HorizontalInverse ==> c.y == |word| - 1
    requires d == VerticalInverse ==> c.x == |word| - 1
    requires d == DiagonalInverse ==> c.x == |word| - 1 && c.y == |word| - 1
    ensures PathInBounds(c, d, |word|, GridSize(content))
    ensures !Fits(content, word, c, d)
  {
  }

  /** A word longer than the grid fits nowhere. */
  lemma TooLongNeverFits(content: array2<char>, word: seq<char>)
    requires IsSquare(content) && |word| > GridSize(content)
    ensures forall c: Coordinate, d: Direction :: InBounds(c, GridSize(content)) ==> !Fits(content, word, c, d)
  {
  }

  /** The empty word fits everywhere, in every direction. */
  lemma EmptyWordFitsEverywhere(content: array2<char>, c: Coordinate, d: Direction)
    requires IsSquare(content) && InBounds(c, GridSize(content))
    ensures Fits(content, [], c, d)
  {
  }

  /** `doesFit` as the generator runs it: the per-direction bounds test, then a
      scan of the path that stops at the first occupied cell. */
  method DoesFit(content: array2<char>, word: seq<char>, c: Coordinate, d: Direction) returns (fits: bool)
    requires IsSquare(content) && InBounds(c, GridSize(content))
    ensures fits == Fits(content, word, c, d)
    ensures fits ==> PathInBounds(c, d, |word|, GridSize(content))
  {
    var wordLength := |word|;
    var x, y := c.x, c.y;
    var gridSize := content.Length1;
    match d {
      case Horizontal =>
        if y + wordLength > gridSize { return false; }
      case Vertical =>
        if x + wordLength > gridSize { return false; }
      case Diagonal =>
        if x + wordLength > gridSize || y + wordLength > gridSize { return false; }
      case HorizontalInverse =>
        if c.y < wordLength { return false; }
      case VerticalInverse =>
        if c.x < wordLength { return false; }
      case DiagonalInverse =>
        if c.x < wordLength || c.y < wordLength { return false; }
    }
    BoundsCheckInBounds(c, d, wordLength, gridSize);
    for i := 0 to wordLength
      invariant forall k :: 0 <= k < i ==> At(content, PathCell(c, d, k)) == Empty
    {
      var p := PathCell(c, d, i);
      if content[p.x, p.y] != Empty { return false; }
    }
    return true;
  }

  /** `getDirectionForFit`: shuffle the six directions and return the first one
      in which the word fits at `c`, or `None` when it fits in none of them. */
  method GetDirectionForFit(content: array2<char>, word: seq<char>, c: Coordinate) returns (r: Option<Direction>)
    requires IsSquare(content) && InBounds(c, GridSize(content))
    ensures r.Some? ==> Fits(content, word, c, r.value)
    ensures r.None? <==> forall d: Direction :: !Fits(content, word, c, d)
  {
    // Collections.shuffle: any ordering of the six directions
    var directions: seq<Direction> :| multiset(directions) == multiset(AllDirections);
    for k := 0 to |directions|
      invariant forall j :: 0 <= j < k ==> !Fits(content, word, c, directions[j])
    {
      var fits := DoesFit(content, word, c, directions[k]);
      if fits {
        return Some(directions[k]);
      }
    }
    forall d: Direction ensures !Fits(content, word, c, d) {
      assert d in AllDirections by {
        match d
        case Horizontal => assert AllDirections[0] == d;
        case Vertical => assert AllDirections[1] == d;
        case Diagonal => assert AllDirections[2] == d;
        case HorizontalInverse => assert AllDirections[3] == d;
        case VerticalInverse => assert AllDirections[4] == d;
        case DiagonalInverse => assert AllDirections[5] == d;
      }
      assert d in multiset(AllDirections);
      assert d in multiset(directions);
      var j :| 0 <= j < |directions| && directions[j] == d;
    }
    return None;
  }
}
