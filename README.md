# Word-search grid generator in Dafny

This project models the grid generator of the word-search service
(`WordGridService`). The generator works in four steps:

1. It allocates an N x N `char` grid and marks every cell `'_'` (empty).
2. For each word it shuffles the list of all coordinates and upper-cases the word.
3. It tries to place the word at the first shuffled coordinate only. There it
   shuffles the six directions and takes the first one in which the word fits
   (`doesFit`), then writes the word's letters along that direction.
4. Finally it replaces every cell still `'_'` with a random letter A-Z
   (`randomFillGrid`).

Modules, one per component of the service:

- `GridTypes` (`grid_types.dfy`): the six directions, coordinates (`x` is the
  row, `y` the column), the cell a word's `i`-th letter occupies (`PathCell`),
  and ASCII upper-casing.
- `FitEvaluator` (`fit_evaluator.dfy`): `doesFit` as the pure predicate `Fits`,
  plus the method `DoesFit`, which runs the same early-return scan and is
  proved equal to `Fits`. It also holds `GetDirectionForFit`.
- `GridBuilder` (`grid_builder.dfy`): `generateGrid` over an `array2<char>`
  updated in place. It is split into its phases: `InitGrid`, one pass of the
  word loop (`PlaceNextWord`), the single attempt (`AttemptWord` and
  `PlaceAtFirstCandidate`),
  the placement switch (`WriteWord`) and `RandomFillGrid`.

Randomness is abstract. Each shuffle is a `:|` choice of any sequence with the
same multiset of elements. Each fill letter is a `:|` choice of any index into
`"ABCDEFGHIJKLMNOPQRSTUVWXYZ"`. So every property holds for every outcome of
the random choices.

Two behaviours of the code are modelled as written:

- **Only the first coordinate is tried.** The coordinate loop ends with an
  unconditional `break`. If no direction fits at the first shuffled
  coordinate, the word is dropped. `PlaceAtFirstCandidate` returns a ghost
  count of examined coordinates, which is at most 1.
- **Inverse directions use a stricter bound.** Their bounds test rejects a
  start coordinate below the word length `L`. Staying inside the grid only
  needs `L - 1`. So a reverse word whose last letter would land on row or
  column 0 is rejected. The test is sound but incomplete:
  `BoundsCheckInBounds`, `FitsExactly` and `InverseEndingAtEdgeRejected` show
  both sides.

What the word loop writes is also described without the grid.
`CellAfter(words, placements, p)` is the letter of the latest placed word whose
path covers cell `p`, or `'_'`. `FitsAfter` is `doesFit` evaluated on that
description. `GenerateGrid` returns, as ghost outputs, the coordinate each word
was tried at and where it was placed. It proves that word `k` was placed exactly
when some direction fitted at its coordinate on the grid the earlier words
left. It also proves that the final grid agrees with `CellAfter` on every cell
where `CellAfter` is not `'_'`, and holds a capital on every other cell.

The six per-direction write loops of the placement `switch` become one loop.
A `match` on the direction advances the row `x` and column `y` exactly as each
case does (`x++`, `y--`, ...). In the same way, `DoesFit` does the
per-direction bounds test first and then one scan along `PathCell`.

## Model

| member | source | states |
|---|---|---|
| GridTypes.PathCellInjective | src/main/java/io/javabrains/wordsearchapi/services/WordGridService.java:50-81 | two letters of one word land on the same cell only when they are at the same position in the word: every direction's step is non-zero |
| GridTypes.UpperChar | src/main/java/io/javabrains/wordsearchapi/services/WordGridService.java:44 | a character becomes a capital exactly when it is an ASCII letter; a lower-case letter becomes the capital at the same place in the alphabet; every other character is kept |
| GridTypes.ToUpper | src/main/java/io/javabrains/wordsearchapi/services/WordGridService.java:44 | upper-casing keeps the word's length; position by position, letters become capitals of the same letter and other characters are kept |
| GridTypes.ToUpperIdempotent | src/main/java/io/javabrains/wordsearchapi/services/WordGridService.java:44 | upper-casing twice equals upper-casing once; a word without `'_'` has none after upper-casing |
| GridTypes.LettersBecomeCapitals | src/main/java/io/javabrains/wordsearchapi/services/WordGridService.java:44 | a word made of ASCII letters upper-cases to a word made of capitals A-Z |
| GridTypes.CoversIffOnPath | src/main/java/io/javabrains/wordsearchapi/services/WordGridService.java:50-81 | a cell lies on the path of `L` letters exactly when stepping back from it along the direction lands on the start within `L` steps; the step count of letter `i` is `i` |
| FitEvaluator.BoundsCheckInBounds | src/main/java/io/javabrains/wordsearchapi/services/WordGridService.java:131-167 | when the per-direction bounds test passes at an in-grid start, every cell `(x + i*dx, y + i*dy)` with `i < L` is inside `[0,N) x [0,N)`, in all six directions |
| FitEvaluator.FitsSound | src/main/java/io/javabrains/wordsearchapi/services/WordGridService.java:126-170 | if `doesFit` holds, the word's whole path is inside the grid and every cell on it holds `'_'` |
| FitEvaluator.FitsExactly | src/main/java/io/javabrains/wordsearchapi/services/WordGridService.java:126-170 | `doesFit` holds if and only if the path is inside the grid, every cell on it is `'_'`, and for a non-empty word in an inverse direction the cell one step past the last letter is also inside the grid, i.e. the start is at least `L` on each axis that decreases |
| FitEvaluator.InverseEndingAtEdgeRejected | src/main/java/io/javabrains/wordsearchapi/services/WordGridService.java:150-167 | a reverse word starting at `L - 1` on the axes it decreases lies wholly inside the grid and still does not fit |
| FitEvaluator.TooLongNeverFits | src/main/java/io/javabrains/wordsearchapi/services/WordGridService.java:131-167 | a word longer than the grid fits at no coordinate in no direction |
| FitEvaluator.EmptyWordFitsEverywhere | src/main/java/io/javabrains/wordsearchapi/services/WordGridService.java:126-170 | the empty word fits at every coordinate in every direction |
| FitEvaluator.DoesFit | src/main/java/io/javabrains/wordsearchapi/services/WordGridService.java:126-170 | the early-return scan returns exactly `Fits`, and true only for a path inside the grid; it reads the grid and changes nothing |
| FitEvaluator.GetDirectionForFit | src/main/java/io/javabrains/wordsearchapi/services/WordGridService.java:113-124 | for every shuffle of the six directions, a returned direction fits, and the result is `None` exactly when no direction fits |
| GridBuilder.AlphabetIsCapitals | src/main/java/io/javabrains/wordsearchapi/services/WordGridService.java:102-107 | the fill alphabet has 26 characters, all capitals, and every capital A-Z occurs in it |
| GridBuilder.InitGrid | src/main/java/io/javabrains/wordsearchapi/services/WordGridService.java:33-40 | allocates a fresh N x N grid with every cell `'_'`, and a coordinate list of N*N entries, pairwise distinct, holding every in-grid cell and nothing else |
| GridBuilder.WriteWord | src/main/java/io/javabrains/wordsearchapi/services/WordGridService.java:50-81 | for a fitting path: cell `start + i*step` holds `word[i]` for every `i < L`; every cell off the path is unchanged, so each cell holds the word's letter when the path covers it and its old value otherwise; no cell that held a letter was overwritten; every cell holds its old value or a letter of the word |
| GridBuilder.PlaceAtFirstCandidate | src/main/java/io/javabrains/wordsearchapi/services/WordGridService.java:45-84 | only the first coordinate is examined; if a direction fits there the word is written from it, otherwise the grid is unchanged and no direction fitted there; each cell holds the word's letter when the path covers it and its old value otherwise; occupied cells and every word already spelled without `'_'` are kept |
| GridBuilder.RandomFillGrid | src/main/java/io/javabrains/wordsearchapi/services/WordGridService.java:100-111 | every cell that held `'_'` now holds a capital A-Z; every other cell is unchanged; no `'_'` remains; every word spelled without `'_'` still reads back |
| GridBuilder.FittingPathAvoidsSpelledWord | src/main/java/io/javabrains/wordsearchapi/services/WordGridService.java:126-170 | a path on which a word fits shares no cell with a word already spelled on the grid without `'_'` |
| GridBuilder.SpelledWordsSurvive | src/main/java/io/javabrains/wordsearchapi/services/WordGridService.java:100-111 | a change that keeps every cell holding a letter keeps every word spelled without `'_'` |
| GridBuilder.FitsIffFitsAfter | src/main/java/io/javabrains/wordsearchapi/services/WordGridService.java:126-170 | on a grid that agrees with `CellAfter`, `doesFit` for the next word holds exactly when `FitsAfter` does |
| GridBuilder.ShortFirstWordAlwaysFits | src/main/java/io/javabrains/wordsearchapi/services/WordGridService.java:113-170 | before any word is placed, a word of length `L` with `2L <= N + 1` fits at every in-grid coordinate forwards or backwards along its row |
| GridBuilder.AttemptFacts | src/main/java/io/javabrains/wordsearchapi/services/WordGridService.java:126-170 | at the attempt coordinate, every direction that fits gives a path disjoint from every earlier placed word without `'_'`, and a word longer than N fits in no direction |
| GridBuilder.ExtendMatch | src/main/java/io/javabrains/wordsearchapi/services/WordGridService.java:45-84 | a grid holding the new word's letters on its path and agreeing with `CellAfter` elsewhere matches `CellAfter` one word further on |
| GridBuilder.DisjointExtends | src/main/java/io/javabrains/wordsearchapi/services/WordGridService.java:42-85 | a new placement disjoint from every earlier placed word keeps the placed words pairwise disjoint |
| GridBuilder.AttemptWord | src/main/java/io/javabrains/wordsearchapi/services/WordGridService.java:44-84 | the single attempt for word `i` at the head of the coordinate list: placed there in a direction that fitted before, and then spelled with every cell off its path unchanged, exactly when some direction satisfies `FitsAfter`; otherwise the grid is unchanged; afterwards the grid matches `CellAfter` one word further on |
| GridBuilder.HistoryExtends | src/main/java/io/javabrains/wordsearchapi/services/WordGridService.java:42-85 | recording one more attempt (its coordinate, and a placement there in a fitting direction or none when no direction fits) extends the record of the word loop |
| GridBuilder.PlaceNextWord | src/main/java/io/javabrains/wordsearchapi/services/WordGridService.java:42-85 | one pass of the word loop: the coordinate list is a reordering of the list it was given (same multiset) and still holds every cell; the word is placed only at the first shuffled coordinate, in a direction that fitted there before the pass, and is then spelled there with every cell off its path unchanged; otherwise the grid is unchanged and no direction fitted there; the grid matches `CellAfter` one word further on; a too-long word is not placed; earlier placed words stay spelled and the new one is disjoint from them; capitals-or-empty is kept for letter words |
| GridBuilder.GenerateGrid | src/main/java/io/javabrains/wordsearchapi/services/WordGridService.java:32-88 | returns a fresh N x N grid with no `'_'` left; word `k` was tried at one in-grid coordinate `examined[k]` only, and was placed there exactly when some direction fitted on the grid the earlier words left (`FitsAfter`), otherwise dropped; every cell where `CellAfter` (the letter of the latest placed word covering it) is not `'_'` holds that letter, and every other cell holds a capital A-Z; a first word of length `L` with `2L <= N + 1` is always placed; each placed word without `'_'` reads back upper-cased; two such placed words never share a cell; a word longer than N is never placed; when all words are ASCII letters every cell holds A-Z |

## Left out

- `displayGrid` (console printing) and the Spring `@Service`/`@Scope` annotations: I/O and framework wiring.
- `Collections.shuffle` and `ThreadLocalRandom`: any permutation and any index can be chosen. Uniformity and independence of the draws are not modelled.
- `String.toUpperCase`: only the ASCII mapping is modelled. Locale- and Unicode-aware case mapping, including mappings that change a word's length, is not part of this model.
- A `gridSize` of 0 or less: `GenerateGrid` and `RandomFillGrid` require a grid of at least one row. The code throws in that case: a negative size fails when the grid is allocated (line 34), and a size of 0 fails at `content[0]` in `randomFillGrid` (line 101).
- Strings as UTF-16: a word here is a sequence of Unicode scalar values (Dafny `char`), while the code counts and writes UTF-16 code units (`word.length()` in `doesFit`, `toCharArray()` in the placement `switch`). A character outside the Basic Multilingual Plane takes two cells in the code and one in the model, and a lone surrogate cannot be represented. The word lengths in `TooLongNeverFits`, `ShortFirstWordAlwaysFits` and `GenerateGrid` (`L > N`, `2L <= N + 1`) are the model's count, which equals the code's only for words inside the Basic Multilingual Plane.
- Null word lists or null words: not representable with `seq<string>`.
- Java's 32-bit `int`: the test `y + wordLength > gridSize` could overflow only for words of about 2^31 characters. Integers here are unbounded.
- `char[][]` is a Java array of row arrays; the model uses one `array2<char>`. The code never aliases rows, so nothing observable is lost.
- GridBuilder.GenerateGrid: the code returns only the grid. The examined coordinates and the placements are ghost outputs, used only to state the properties. Read-back and disjointness are stated for words without `'_'`: a word containing `'_'` leaves `'_'` cells that a later word or the fill may overwrite.
