/** The generator itself (`generateGrid`): it allocates the grid, places each
    word at the first cell of a fresh shuffle of the coordinates, and fills
    every cell left empty with a random capital letter (`randomFillGrid`). */
module GridBuilder {
  import opened GridTypes
  import opened FitEvaluator

  /** The letters `randomFillGrid` draws from. */
  const Alphabet: string := "ABCDEFGHIJKLMNOPQRSTUVWXYZ"

  /** Every fill letter is a capital, and every capital can be drawn. */
  lemma AlphabetIsCapitals()
    ensures |Alphabet| == 26
    ensures forall k :: 0 <= k < |Alphabet| ==> IsCapital(Alphabet[k])
    ensures forall ch :: IsCapital(ch) ==> ch in Alphabet
  {
  }

  /** Letter `i` of `word` is written on cell `i` of the path of `p`. */
  predicate Spells(content: array2<char>, word: seq<char>, p: Placement)
    reads content
    requires IsSquare(content)
  {
    forall i :: 0 <= i < |word| ==>
      InBounds(PathCell(p.start, p.dir, i), content.Length0) &&
      At(content, PathCell(p.start, p.dir, i)) == word[i]
  }

  /** Two paths share no cell. */
  predicate Disjoint(p: Placement, len: int, q: Placement, len': int) {
    forall i, j :: 0 <= i < len && 0 <= j < len' ==> PathCell(p.start, p.dir, i) != PathCell(q.start, q.dir, j)
  }

  /** Allocates the `gridSize` x `gridSize` grid with every cell empty, and
      lists every coordinate of it, row by row. */
  method InitGrid(gridSize: int) returns (content: array2<char>, coordinates: seq<Coordinate>)
    requires gridSize >= 1
    ensures fresh(content) && content.Length0 == gridSize && content.Length1 == gridSize
    ensures forall p :: InBounds(p, gridSize) ==> At(content, p) == Empty
    ensures forall p :: p in coordinates <==> InBounds(p, gridSize)
    ensures |coordinates| == gridSize * gridSize
    ensures forall a, b :: 0 <= a < b < |coordinates| ==> coordinates[a] != coordinates[b]
  {
    coordinates := [];
    content := new char[gridSize, gridSize];
    for i := 0 to gridSize
      invariant forall p :: p in coordinates <==> 0 <= p.x < i && 0 <= p.y < gridSize
      invariant |coordinates| == i * gridSize
      invariant forall a, b :: 0 <= a < b < |coordinates| ==> coordinates[a] != coordinates[b]
      invariant forall r, s :: 0 <= r < i && 0 <= s < gridSize ==> content[r, s] == Empty
    {
      for j := 0 to gridSize
        invariant forall p :: p in coordinates <==> (0 <= p.x < i && 0 <= p.y < gridSize) || (p.x == i && 0 <= p.y < j)
        invariant |coordinates| == i * gridSize + j
        invariant forall a, b :: 0 <= a < b < |coordinates| ==> coordinates[a] != coordinates[b]
        invariant forall r, s :: 0 <= r < i && 0 <= s < gridSize ==> content[r, s] == Empty
        invariant forall s :: 0 <= s < j ==> content[i, s] == Empty
      {
        assert Coordinate(i, j) !in coordinates;
        coordinates := coordinates + [Coordinate(i, j)];
        content[i, j] := Empty;
      }
    }
  }

  /** The placement `switch`: writes the letters of `word` one per step along
      `d` from `c`, advancing the row `x` and column `y` as the direction says.
      The path must fit, so the writes stay inside the grid and only empty
      cells are overwritten. */
  method WriteWord(content: array2<char>, word: seq<char>, c: Coordinate, d: Direction)
    requires IsSquare(content) && InBounds(c, GridSize(content))
    requires Fits(content, word, c, d)
    modifies content
    ensures Spells(content, word, Placement(c, d))
    ensures forall p :: InBounds(p, GridSize(content)) && !OnPath(p, c, d, |word|) ==> At(content, p) == old(At(content, p))
    ensures forall p :: InBounds(p, GridSize(content)) && old(At(content, p)) != Empty ==> At(content, p) == old(At(content, p))
    ensures forall p :: InBounds(p, GridSize(content)) ==> At(content, p) == old(At(content, p)) || At(content, p) in word
    ensures forall p :: InBounds(p, GridSize(content)) ==>
      At(content, p) == if Covers(c, d, |word|, p) then word[PathIndex(c, d, p)] else old(At(content, p))
  {
    FitsSound(content, word, c, d);
    var x, y := c.x, c.y;
    for i := 0 to |word|
      invariant Coordinate(x, y) == PathCell(c, d, i)
      invariant forall k :: 0 <= k < i ==> At(content, PathCell(c, d, k)) == word[k]
      invariant forall p :: InBounds(p, GridSize(content)) && !OnPath(p, c, d, i) ==> At(content, p) == old(At(content, p))
      invariant forall p :: InBounds(p, GridSize(content)) ==> At(content, p) == old(At(content, p)) || At(content, p) in word
    {
      content[x, y] := word[i];
      match d {
        case Horizontal => y := y + 1;
        case Vertical => x := x + 1;
        case Diagonal => x, y := x + 1, y + 1;
        case HorizontalInverse => y := y - 1;
        case VerticalInverse => x := x - 1;
        case DiagonalInverse => x, y := x - 1, y - 1;
      }
    }
    forall p | InBounds(p, GridSize(content))
      ensures At(content, p) == if Covers(c, d, |word|, p) then word[PathIndex(c, d, p)] else old(At(content, p))
    {
      CoversIffOnPath(c, d, |word|, p);
    }
  }

  /** One word's turn: only the first coordinate of the shuffled list is ever
      tried (the loop ends after one pass whether or not a direction fit), so
      the word is either written there or dropped. `examined` counts the
      coordinates looked at. */
  method PlaceAtFirstCandidate(content: array2<char>, word: seq<char>, coordinates: seq<Coordinate>)
    returns (ghost placed: Option<Placement>, ghost examined: nat)
    requires IsSquare(content)
    requires forall k :: 0 <= k < |coordinates| ==> InBounds(coordinates[k], GridSize(content))
    modifies content
    ensures examined == if |coordinates| == 0 then 0 else 1
    ensures placed.Some? ==>
      |coordinates| > 0 && placed.value.start == coordinates[0] &&
      old(Fits(content, word, coordinates[0], placed.value.dir)) &&
      Spells(content, word, placed.value) &&
      (forall p :: InBounds(p, GridSize(content)) && !OnPath(p, placed.value.start, placed.value.dir, |word|) ==>
         At(content, p) == old(At(content, p)))
    ensures placed.None? ==>
      unchanged(content) &&
      (|coordinates| > 0 ==> forall d: Direction :: !old(Fits(content, word, coordinates[0], d)))
    ensures forall p :: InBounds(p, GridSize(content)) ==>
      At(content, p) ==
        if placed.Some? && Covers(placed.value.start, placed.value.dir, |word|, p)
        then word[PathIndex(placed.value.start, placed.value.dir, p)]
        else old(At(content, p))
    ensures forall p :: InBounds(p, GridSize(content)) && old(At(content, p)) != Empty ==> At(content, p) == old(At(content, p))
    ensures forall p :: InBounds(p, GridSize(content)) ==> At(content, p) == old(At(content, p)) || At(content, p) in word
    ensures forall w, q :: old(Spells(content, w, q)) && Empty !in w ==> Spells(content, w, q)
  {
    placed, examined := None, 0;
    for k := 0 to |coordinates|
      invariant k == 0 && examined == 0 && placed.None? && unchanged(content)
    {
      var coordinate := coordinates[k];
      examined := examined + 1;
      var selectedDirection := GetDirectionForFit(content, word, coordinate);
      if selectedDirection.Some? {
        WriteWord(content, word, coordinate, selectedDirection.value);
        placed := Some(Placement(coordinate, selectedDirection.value));
      } else {
        forall d: Direction ensures !old(Fits(content, word, coordinate, d)) {
          assert !Fits(content, word, coordinate, d);
        }
      }
      break;
    }
    SpelledWordsSurvive(content);
  }

  /** `randomFillGrid`: every cell still empty receives a letter drawn from the
      alphabet; every other cell is left alone. Afterwards no cell is empty. */
  method RandomFillGrid(content: array2<char>)
    requires IsSquare(content) && content.Length0 >= 1
    modifies content
    ensures forall p :: InBounds(p, GridSize(content)) && old(At(content, p)) == Empty ==> IsCapital(At(content, p))
    ensures forall p :: InBounds(p, GridSize(content)) && old(At(content, p)) != Empty ==> At(content, p) == old(At(content, p))
    ensures forall p :: InBounds(p, GridSize(content)) ==> At(content, p) != Empty
    ensures forall w, q :: old(Spells(content, w, q)) && Empty !in w ==> Spells(content, w, q)
  {
    AlphabetIsCapitals();
    var gridSize := content.Length1;
    for i := 0 to gridSize
      invariant forall r, s :: 0 <= r < gridSize && 0 <= s < gridSize ==>
        if r < i then (old(content[r, s]) == Empty ==> IsCapital(content[r, s])) &&
                      (old(content[r, s]) != Empty ==> content[r, s] == old(content[r, s]))
        else content[r, s] == old(content[r, s])
    {
      for j := 0 to gridSize
        invariant forall r, s :: 0 <= r < gridSize && 0 <= s < gridSize ==>
          if r < i || (r == i && s < j) then
            (old(content[r, s]) == Empty ==> IsCapital(content[r, s])) &&
            (old(content[r, s]) != Empty ==> content[r, s] == old(content[r, s]))
          else content[r, s] == old(content[r, s])
      {
        if content[i, j] == Empty {
          // ThreadLocalRandom: any index into the alphabet
          var randomIndex :| 0 <= randomIndex < |Alphabet|;
          content[i, j] := Alphabet[randomIndex];
        }
      }
    }
    SpelledWordsSurvive(content);
  }

  /** Every placed word among the first `i` that avoids the empty marker reads
      back, upper-cased, along its path. */
  predicate PlacedWordsSpelled(content: array2<char>, words: seq<string>, placements: seq<Option<Placement>>, i: int)
    reads content
    requires IsSquare(content) && 0 <= i <= |words| && i <= |placements|
  {
    forall k :: 0 <= k < i && placements[k].Some? && Empty !in words[k] ==>
      Spells(content, ToUpper(words[k]), placements[k].value)
  }

  /** No two placed words among the first `i` that avoid the empty marker
      share a cell. */
  predicate PlacedWordsDisjoint(words: seq<string>, placements: seq<Option<Placement>>, i: int)
    requires 0 <= i <= |words| && i <= |placements|
  {
    forall k, k' ::
      (0 <= k < k' < i && placements[k].Some? && placements[k'].Some? &&
       Empty !in words[k] && Empty !in words[k']) ==>
      Disjoint(placements[k].value, |words[k]|, placements[k'].value, |words[k']|)
  }

  /** Every cell is empty or holds a capital letter. */
  ghost predicate CapitalsOrEmpty(content: array2<char>)
    reads content
    requires IsSquare(content)
  {
    forall p :: InBounds(p, content.Length0) ==> At(content, p) == Empty || IsCapital(At(content, p))
  }

  /** A path on which a word fits is disjoint from every word already spelled
      on the grid with letters other than the empty marker. */
  lemma FittingPathAvoidsSpelledWord(content: array2<char>, word: seq<char>, p: Placement, other: seq<char>, c: Coordinate)
    requires IsSquare(content) && InBounds(c, GridSize(content))
    requires Spells(content, word, p) && Empty !in word
    ensures forall d: Direction :: Fits(content, other, c, d) ==> Disjoint(p, |word|, Placement(c, d), |other|)
  {
  }

  /** A write that keeps every occupied cell keeps every word spelled with
      letters other than the empty marker. */
  twostate lemma SpelledWordsSurvive(content: array2<char>)
    requires IsSquare(content)
    requires forall p :: InBounds(p, content.Length0) && old(At(content, p)) != Empty ==> At(content, p) == old(At(content, p))
    ensures forall w, q :: old(Spells(content, w, q)) && Empty !in w ==> Spells(content, w, q)
  {
    forall w, q | old(Spells(content, w, q)) && Empty !in w ensures Spells(content, w, q) {
      forall j | 0 <= j < |w|
        ensures InBounds(PathCell(q.start, q.dir, j), content.Length0)
        ensures At(content, PathCell(q.start, q.dir, j)) == w[j]
      {
        assert old(At(content, PathCell(q.start, q.dir, j))) == w[j];
        assert w[j] in w;
      }
    }
  }

  predicate AllWordsLetters(words: seq<string>) {
    forall k :: 0 <= k < |words| ==> AllLetters(words[k])
  }

  /** The character the word loop leaves in cell `p` once the words before
      `|placed|` have had their turn, `placed[k]` recording where word `k`
      (upper-cased) went: the letter of the latest placed word whose path
      covers `p`, or the empty marker. */
  ghost function CellAfter(words: seq<string>, placed: seq<Option<Placement>>, p: Coordinate): char
    requires |placed| <= |words|
    decreases |placed|
  {
    if placed == [] then Empty
    else
      var k := |placed| - 1;
      var word := ToUpper(words[k]);
      match placed[k]
      case Some(q) =>
        if Covers(q.start, q.dir, |word|, p) then word[PathIndex(q.start, q.dir, p)]
        else CellAfter(words, placed[..k], p)
      case None => CellAfter(words, placed[..k], p)
  }

  /** `doesFit` for the next word, evaluated on the grid `CellAfter` describes. */
  ghost predicate FitsAfter(words: seq<string>, placed: seq<Option<Placement>>, n: int, c: Coordinate, d: Direction)
    requires |placed| < |words|
  {
    var word := ToUpper(words[|placed|]);
    BoundsCheck(c, d, |word|, n) &&
    forall i :: 0 <= i < |word| ==> CellAfter(words, placed, PathCell(c, d, i)) == Empty
  }

  /** The grid holds exactly what `CellAfter` describes. */
  ghost predicate GridMatches(content: array2<char>, words: seq<string>, placed: seq<Option<Placement>>)
    reads content
    requires IsSquare(content) && |placed| <= |words|
  {
    forall p :: InBounds(p, content.Length0) ==> At(content, p) == CellAfter(words, placed, p)
  }

  /** On a grid that matches the description, `doesFit` for the next word is
      `FitsAfter`. */
  lemma FitsIffFitsAfter(content: array2<char>, words: seq<string>, placed: seq<Option<Placement>>, c: Coordinate, d: Direction)
    requires IsSquare(content) && InBounds(c, GridSize(content)) && |placed| < |words|
    requires GridMatches(content, words, placed)
    ensures Fits(content, ToUpper(words[|placed|]), c, d) <==> FitsAfter(words, placed, GridSize(content), c, d)
  {
    var word := ToUpper(words[|placed|]);
    if BoundsCheck(c, d, |word|, GridSize(content)) {
      BoundsCheckInBounds(c, d, |word|, GridSize(content));
    }
  }

  /** Before any word is placed, a word of length `L` with `2L <= n + 1` fits at
      every cell, forwards or backwards along its row: its single attempt
      cannot fail. */
  lemma ShortFirstWordAlwaysFits(words: seq<string>, n: int, c: Coordinate)
    requires |words| > 0 && InBounds(c, n) && 2 * |words[0]| <= n + 1
    ensures FitsAfter(words, [], n, c, Horizontal) || FitsAfter(words, [], n, c, HorizontalInverse)
  {
    var len := |ToUpper(words[0])|;
    if c.y + len > n {
      assert BoundsCheck(c, HorizontalInverse, len, n);
    }
  }

  /** A reordering has the same members. */
  lemma ReorderingKeepsMembers<T>(a: seq<T>, b: seq<T>)
    requires multiset(a) == multiset(b)
    ensures forall x :: x in a <==> x in b
  {
    forall x ensures x in a <==> x in b {
      assert x in multiset(a) <==> x in multiset(b);
    }
  }

  /** What holds at the coordinate where word `|placements|` gets its attempt,
      before anything is written: a fitting path avoids every earlier placed
      word, and a too-long word fits in no direction. */
  lemma AttemptFacts(content: array2<char>, words: seq<string>, placements: seq<Option<Placement>>, c: Coordinate)
    requires IsSquare(content) && |placements| < |words| && InBounds(c, content.Length0)
    requires PlacedWordsSpelled(content, words, placements, |placements|)
    ensures forall k, d: Direction ::
      (0 <= k < |placements| && placements[k].Some? && Empty !in words[k] &&
       Fits(content, ToUpper(words[|placements|]), c, d)) ==>
      Disjoint(placements[k].value, |words[k]|, Placement(c, d), |words[|placements|]|)
    ensures |words[|placements|]| > content.Length0 ==>
      forall d: Direction :: !Fits(content, ToUpper(words[|placements|]), c, d)
  {
    var word := ToUpper(words[|placements|]);
    forall k | 0 <= k < |placements| && placements[k].Some? && Empty !in words[k]
      ensures forall d: Direction :: Fits(content, word, c, d) ==>
        Disjoint(placements[k].value, |words[k]|, Placement(c, d), |word|)
    {
      ToUpperIdempotent(words[k]);
      FittingPathAvoidsSpelledWord(content, ToUpper(words[k]), placements[k].value, word, c);
    }
    if |word| > content.Length0 {
      TooLongNeverFits(content, word);
    }
  }

  /** A grid that agrees with `CellAfter` off the new word's path and holds the
      new word's letters on it matches `CellAfter` one word further on. */
  lemma ExtendMatch(content: array2<char>, words: seq<string>, placements: seq<Option<Placement>>, placed: Option<Placement>)
    requires IsSquare(content) && |placements| < |words|
    requires forall p :: InBounds(p, content.Length0) ==>
      At(content, p) ==
        if placed.Some? && Covers(placed.value.start, placed.value.dir, |words[|placements|]|, p)
        then ToUpper(words[|placements|])[PathIndex(placed.value.start, placed.value.dir, p)]
        else CellAfter(words, placements, p)
    ensures GridMatches(content, words, placements + [placed])
  {
    assert (placements + [placed])[..|placements|] == placements;
  }

  /** A new placement disjoint from every earlier placed word keeps the
      placed words pairwise disjoint. */
  lemma DisjointExtends(words: seq<string>, placements: seq<Option<Placement>>, placed: Option<Placement>)
    requires |placements| < |words|
    requires PlacedWordsDisjoint(words, placements, |placements|)
    requires placed.Some? && Empty !in words[|placements|] ==>
      forall k :: 0 <= k < |placements| && placements[k].Some? && Empty !in words[k] ==>
        Disjoint(placements[k].value, |words[k]|, placed.value, |words[|placements|]|)
    ensures PlacedWordsDisjoint(words, placements + [placed], |placements| + 1)
  {
  }

  /** The single attempt for word `i` (upper-cased) at the head of
      the shuffled coordinate list, measured against `CellAfter`: the word is
      placed exactly when some direction fits there on the grid the earlier
      words left, and the grid then matches `CellAfter` one word further on. */
  method AttemptWord(content: array2<char>, words: seq<string>, i: int, ghost placements: seq<Option<Placement>>,
                     coordinates: seq<Coordinate>)
    returns (ghost placed: Option<Placement>)
    requires IsSquare(content) && 0 <= i < |words| && |placements| == i
    requires |coordinates| > 0 && forall k :: 0 <= k < |coordinates| ==> InBounds(coordinates[k], content.Length0)
    requires GridMatches(content, words, placements)
    modifies content
    ensures placed.Some? ==>
      placed.value.start == coordinates[0] &&
      old(Fits(content, ToUpper(words[i]), coordinates[0], placed.value.dir)) &&
      Spells(content, ToUpper(words[i]), placed.value) &&
      (forall p :: InBounds(p, content.Length0) && !OnPath(p, placed.value.start, placed.value.dir, |words[i]|) ==>
         At(content, p) == old(At(content, p)))
    ensures placed.None? ==>
      unchanged(content) && forall d: Direction :: !old(Fits(content, ToUpper(words[i]), coordinates[0], d))
    ensures placed.Some? ==> FitsAfter(words, placements, content.Length0, coordinates[0], placed.value.dir)
    ensures placed.None? ==> forall d: Direction :: !FitsAfter(words, placements, content.Length0, coordinates[0], d)
    ensures GridMatches(content, words, placements + [placed])
    ensures forall p :: InBounds(p, content.Length0) ==>
      At(content, p) == old(At(content, p)) || At(content, p) in ToUpper(words[i])
    ensures forall w, q :: old(Spells(content, w, q)) && Empty !in w ==> Spells(content, w, q)
  {
    var word := ToUpper(words[i]);
    forall d: Direction
      ensures Fits(content, word, coordinates[0], d) <==> FitsAfter(words, placements, content.Length0, coordinates[0], d)
    {
      FitsIffFitsAfter(content, words, placements, coordinates[0], d);
    }
    ghost var examined;
    placed, examined := PlaceAtFirstCandidate(content, word, coordinates);
    forall p | InBounds(p, content.Length0)
      ensures At(content, p) ==
        if placed.Some? && Covers(placed.value.start, placed.value.dir, |word|, p)
        then word[PathIndex(placed.value.start, placed.value.dir, p)]
        else CellAfter(words, placements, p)
    {
      assert old(At(content, p)) == CellAfter(words, placements, p);
    }
    ExtendMatch(content, words, placements, placed);
  }

  /** One pass of the word loop: shuffle the coordinate list in place,
      upper-case word `i` and give it its single attempt. The placements made
      so far stay spelled and pairwise disjoint, and the new one joins them. */
  method PlaceNextWord(content: array2<char>, words: seq<string>, i: int, coordinates: seq<Coordinate>,
                       ghost placements: seq<Option<Placement>>)
    returns (shuffled: seq<Coordinate>, ghost placed: Option<Placement>)
    requires IsSquare(content) && content.Length0 >= 1
    requires 0 <= i < |words| && |placements| == i
    requires forall p :: p in coordinates <==> InBounds(p, content.Length0)
    requires PlacedWordsSpelled(content, words, placements, i)
    requires PlacedWordsDisjoint(words, placements, i)
    requires AllWordsLetters(words) ==> CapitalsOrEmpty(content)
    requires GridMatches(content, words, placements)
    modifies content
    ensures multiset(shuffled) == multiset(coordinates)
    ensures forall p :: p in shuffled <==> InBounds(p, content.Length0)
    ensures |shuffled| > 0
    ensures placed.Some? ==>
      placed.value.start == shuffled[0] &&
      old(Fits(content, ToUpper(words[i]), shuffled[0], placed.value.dir)) &&
      Spells(content, ToUpper(words[i]), placed.value) &&
      (forall p :: InBounds(p, content.Length0) && !OnPath(p, placed.value.start, placed.value.dir, |words[i]|) ==>
         At(content, p) == old(At(content, p)))
    ensures placed.None? ==>
      unchanged(content) && forall d: Direction :: !old(Fits(content, ToUpper(words[i]), shuffled[0], d))
    ensures placed.Some? ==> FitsAfter(words, placements, content.Length0, shuffled[0], placed.value.dir)
    ensures placed.None? ==> forall d: Direction :: !FitsAfter(words, placements, content.Length0, shuffled[0], d)
    ensures GridMatches(content, words, placements + [placed])
    ensures |words[i]| > content.Length0 ==> placed.None?
    ensures PlacedWordsSpelled(content, words, placements + [placed], i + 1)
    ensures PlacedWordsDisjoint(words, placements + [placed], i + 1)
    ensures AllWordsLetters(words) ==> CapitalsOrEmpty(content)
  {
    // Collections.shuffle: the coordinate list is reordered in place
    shuffled :| multiset(shuffled) == multiset(coordinates);
    ReorderingKeepsMembers(shuffled, coordinates);
    assert InBounds(Coordinate(0, 0), content.Length0);
    assert Coordinate(0, 0) in shuffled;
    AttemptFacts(content, words, placements, shuffled[0]);
    if AllWordsLetters(words) {
      LettersBecomeCapitals(words[i]);
    }
    placed := AttemptWord(content, words, i, placements, shuffled);
    ghost var placements' := placements + [placed];
    forall k | 0 <= k < i + 1 && placements'[k].Some? && Empty !in words[k]
      ensures Spells(content, ToUpper(words[k]), placements'[k].value)
    {
      ToUpperIdempotent(words[k]);
    }
    DisjointExtends(words, placements, placed);
  }

  /** The record of the word loop so far: word `k` had its single attempt at
      `examined[k]`, and it was placed there exactly when some direction fitted
      on the grid the earlier words left (`placements[..k]`). */
  ghost predicate AttemptHistory(words: seq<string>, examined: seq<Coordinate>, placements: seq<Option<Placement>>, n: int)
    requires |placements| <= |words|
  {
    |examined| == |placements| &&
    (forall k :: 0 <= k < |placements| ==> InBounds(examined[k], n)) &&
    (forall k :: 0 <= k < |placements| && placements[k].Some? ==>
       placements[k].value.start == examined[k] &&
       FitsAfter(words, placements[..k], n, examined[k], placements[k].value.dir)) &&
    (forall k :: 0 <= k < |placements| && placements[k].None? ==>
       forall d: Direction :: !FitsAfter(words, placements[..k], n, examined[k], d))
  }

  /** One more attempt, recorded with its coordinate and outcome, extends the
      record. */
  lemma HistoryExtends(words: seq<string>, examined: seq<Coordinate>, placements: seq<Option<Placement>>, n: int,
                       c: Coordinate, placed: Option<Placement>)
    requires |placements| < |words| && AttemptHistory(words, examined, placements, n) && InBounds(c, n)
    requires placed.Some? ==> placed.value.start == c && FitsAfter(words, placements, n, c, placed.value.dir)
    requires placed.None? ==> forall d: Direction :: !FitsAfter(words, placements, n, c, d)
    ensures AttemptHistory(words, examined + [c], placements + [placed], n)
  {
    assert forall k :: 0 <= k <= |placements| ==> (placements + [placed])[..k] == placements[..k];
  }

  /** `generateGrid`. The result is a fresh `gridSize` x `gridSize` grid with no
      empty cell left. `placements[k]` records where word `k` (upper-cased) was
      written, or `None` when it was dropped. A placed word without the empty
      marker still reads back along its path at the end, two such placed words
      never share a cell, a word longer than the grid is never placed, and when
      every word is made of ASCII letters every cell holds a capital. */
  method GenerateGrid(gridSize: int, words: seq<string>)
    returns (content: array2<char>, ghost examined: seq<Coordinate>, ghost placements: seq<Option<Placement>>)
    requires gridSize >= 1
    ensures fresh(content) && content.Length0 == gridSize && content.Length1 == gridSize
    ensures |examined| == |words| && |placements| == |words|
    ensures forall k :: 0 <= k < |words| ==> InBounds(examined[k], gridSize)
    ensures forall k :: 0 <= k < |words| && placements[k].Some? ==>
      placements[k].value.start == examined[k] &&
      FitsAfter(words, placements[..k], gridSize, examined[k], placements[k].value.dir)
    ensures forall k :: 0 <= k < |words| && placements[k].None? ==>
      forall d: Direction :: !FitsAfter(words, placements[..k], gridSize, examined[k], d)
    ensures forall p :: InBounds(p, gridSize) ==>
      if CellAfter(words, placements, p) == Empty then IsCapital(At(content, p))
      else At(content, p) == CellAfter(words, placements, p)
    ensures |words| > 0 && 2 * |words[0]| <= gridSize + 1 ==> placements[0].Some?
    ensures forall p :: InBounds(p, gridSize) ==> At(content, p) != Empty
    ensures forall k :: 0 <= k < |words| && |words[k]| > gridSize ==> placements[k].None?
    ensures PlacedWordsSpelled(content, words, placements, |words|)
    ensures PlacedWordsDisjoint(words, placements, |words|)
    ensures AllWordsLetters(words) ==> forall p :: InBounds(p, gridSize) ==> IsCapital(At(content, p))
  {
    var coordinates;
    content, coordinates := InitGrid(gridSize);
    examined, placements := [], [];
    for i := 0 to |words|
      invariant |placements| == i
      invariant forall p :: p in coordinates <==> InBounds(p, gridSize)
      invariant AttemptHistory(words, examined, placements, gridSize)
      invariant GridMatches(content, words, placements)
      invariant forall k :: 0 <= k < i && |words[k]| > gridSize ==> placements[k].None?
      invariant PlacedWordsSpelled(content, words, placements, i)
      invariant PlacedWordsDisjoint(words, placements, i)
      invariant AllWordsLetters(words) ==> CapitalsOrEmpty(content)
    {
      ghost var placed;
      coordinates, placed := PlaceNextWord(content, words, i, coordinates, placements);
      HistoryExtends(words, examined, placements, gridSize, coordinates[0], placed);
      examined, placements := examined + [coordinates[0]], placements + [placed];
    }
    RandomFillGrid(content);
    if |words| > 0 && 2 * |words[0]| <= gridSize + 1 {
      ShortFirstWordAlwaysFits(words, gridSize, examined[0]);
      assert placements[..0] == [];
    }
  }
}
