# Opening-book symmetries and lookup, modelled in Dafny

This project models two parts of a Tak engine's opening-book support.

**The board-symmetry expander** (`book_syms.py`). It takes lines of move
text for an N x N board and prints each non-blank line in its eight images
under the board's symmetries:

- the line itself;
- its three chained quarter-turn rotations;
- its mirror across the vertical axis;
- the three chained rotations of that mirror.

A line is rewritten in two passes:

- A regex pass replaces every coordinate token: a letter followed by
  digits, such as `c3`. An in-bounds cell is rotated with
  `(x, y) -> (y, N-1-x)` or mirrored with `(x, y) -> (N-1-x, y)`, then
  written back as `chr(x + ord('a'))` and a decimal row. On boards of at
  most 26 columns that letter is lowercase. An out-of-bounds
  token is returned exactly as matched.
- A character pass maps the direction symbols `+ > - <`. The rotation
  takes them round as a 4-cycle. The mirror swaps `<` and `>`.

**The opening-book lookup** (`src/book.rs`). A book is a list of move
sequences.

- `is_valid` checks that a move fits on the board.
- `get_move` collects the next move of every stored line that strictly
  extends the game history and whose next move is valid, then picks one of
  them.
- `load` keeps, for each non-blank line of the book file, the longest
  prefix of its whitespace-separated words that parse as moves. It drops
  lines that end up with no moves.

## Modules

- `decimal.dfy` (module `Decimal`): `int()` on a run of ASCII digits and
  `str()` on a natural number, with their round trips.
- `grid.dfy` (module `Grid`): column letters, 0-based cells, the two
  generators `Rotate` and `Flip`, the direction maps, and the agreement
  between cell steps and direction symbols.
- `scan.dfy` (module `Scan`): the two passes of `rotate_line_90` and
  `flip_line_horizontal`.
  - The regex scan is written out as `Tokenize`. At each position, a
    letter followed by a digit starts a match that takes the maximal digit
    run. Otherwise one character is copied.
  - `Render` is the inverse of `Tokenize`.
  - `ApplyLine` applies a list of transforms to a line.
  - `SameAction` says that two lists of transforms act alike on cells and
    on direction symbols. On a board of at most 26 columns, two non-empty
    lists that act alike give equal lines. When one list is empty, this
    holds only for canonical lines: `[]` and four rotations act alike,
    yet they turn `A1` into `A1` and `a1`.
- `symmetries.dfy` (module `Symmetries`): `str.strip`, the eight variants,
  and `ProcessFile`. `ProcessFile` is the loop of `process_file` over the
  lines, with its two chained-rotation loops, proved equal to the
  specification function `Expand`.
- `book.dfy` (module `OpeningBook`):
  - `GameMove`, `IsValid`, `Candidates` and `Book.GetMove`;
  - the word splitting and prefix parsing of `load`;
  - `Load`, the imperative loop of `Book::load`, proved equal to
    `LoadLines`.

The board size `n` of `GridTransformer` is set once and never changed, so
it is a parameter of every transform. It must satisfy `n <= MaxSize`
(`0xD800 - 'a'`), so that `chr(x + ord('a'))` stays a character.

### When the transforms do not undo each other

Four quarter turns, or two mirrors, are the identity on the board's
cells. But `rotate_line_90` and `flip_line_horizontal` do not always give
the line back.

- **Tokens come back in normal form.** On boards of at most 26 columns,
  the code writes every in-bounds cell back in normal form: a lowercase
  letter and a row with no leading zeros.
  - `A1` comes back as `a1`, and `a01` comes back as `a1`.
  - On a board of 27 to 207 columns, a token on row 27 or beyond is
    rotated into a column that `chr` writes as a character Python's
    `[a-z]` does not match, even with IGNORECASE. No later pass matches
    it, so the rotation cannot be undone. From 208 columns on, `chr` can
    write characters such as `İ` (304) or the Kelvin sign (8490) that
    IGNORECASE `[a-z]` does match. The model's scan matches ASCII letters
    only, so it treats those as non-letters too (see "## Left out").
  - The mirror breaks through the column instead. On a board of 27 to
    207 columns, a token in column x <= n - 27 is mirrored into column
    n - 1 - x >= 26, which `chr` writes as a character from `{` on. No
    later mirror matches it: on 30 columns, `a1` becomes `~1` and stays
    `~1`. From 208 columns on, a mirrored column can be written as a
    character such as `İ` (column 207), which the next mirror does match;
    see "## Left out".
  - The order laws (`Scan.RotateLineOrder4`, `Scan.FlipLineInvolution`)
    are therefore proved for lines whose in-bounds tokens are canonical,
    on boards of at most 26 columns.
  - `Scan.RotateLineNormalizes` and `Scan.WideBoardBreaksOrder4` show
    exactly what happens otherwise.
- **Blank lines produce no output.** Lines are stripped first, and blank
  lines produce nothing. So "eight lines for every line" holds for
  non-blank lines. The first variant is the stripped line.

## Model

| member | source | states |
|---|---|---|
| Decimal.Parse | book_syms.py:33 | `int(row_str)` is zero exactly when every digit is `0` |
| Decimal.ParseLeadingZero | book_syms.py:33 | a leading zero adds nothing to the value `int()` reads |
| Decimal.Show | book_syms.py:42 | `str(n)` writes at least one digit and no leading zero, and starts with `0` only for zero |
| Decimal.ParseShow | book_syms.py:33-42 | reading back with `int()` a row written by `str()` gives the number |
| Decimal.ShowParse | book_syms.py:33-42 | writing back a row read by `int()` gives the text exactly when it has no leading zero |
| Decimal.LeadingZeroLost | book_syms.py:33 | `int("01")` is 1 and is written back as `"1"` |
| Grid.Lower | book_syms.py:20 | `char.lower()` on an ASCII letter gives a lowercase letter and fixes lowercase ones |
| Grid.IntToCol | book_syms.py:22-23 | `chr(x + ord('a'))` is at least `'a'`, and is a lowercase letter exactly when `x < 26` |
| Grid.ColToInt | book_syms.py:19-20 | a letter of either case maps into `[0, 26)`, and converting back gives its lowercase form |
| Grid.MapCell | book_syms.py:39-58 | rotation and mirror keep an in-bounds cell in bounds |
| Grid.RotateCellOrder4 | book_syms.py:25-42 | four quarter turns return every in-bounds cell; one turn fixes exactly the centre cell |
| Grid.FlipCellInvolution | book_syms.py:44-60 | the mirror applied twice returns the cell; it fixes exactly the middle column |
| Grid.DirTablePermutes | book_syms.py:71-83 | the rotation's dictionary permutes the four symbols, the mirror's permutes `<` and `>`, and no entry maps a symbol to itself |
| Grid.MapDir | book_syms.py:62-84 | a matched character goes through the table, and everything else is unchanged; the rotation changes exactly the four symbols, and the mirror changes exactly `<` and `>` |
| Grid.RotateDirOrder4 | book_syms.py:71 | four rotations fix every character; two rotations move every direction symbol |
| Grid.FlipDirInvolution | book_syms.py:83 | the mirror of directions is an involution |
| Grid.Step | book_syms.py:64-68 | one step in a direction moves to an orthogonally adjacent cell |
| Grid.StepCommutes | book_syms.py:25-80 | rotating, or mirroring, the neighbour of a cell one step in direction d gives the neighbour of the rotated, or mirrored, cell one step in the mapped direction |
| Scan.DigitRunEnd | book_syms.py:15 | `\d+` takes the maximal run of digits |
| Scan.DigitRunEndUnique | book_syms.py:15 | the maximal digit run is the only run that ends before a non-digit |
| Scan.Tokenize | book_syms.py:14-15 | the scan splits a line into copied characters and maximal letter-digits matches, and these concatenate back to the line |
| Scan.TokenizeRender | book_syms.py:86-98 | on every well-formed segment sequence, scanning its text gives the sequence back |
| Scan.CellOf | book_syms.py:30-33 | a match denotes the cell of its column letter, either case alike, and its row minus one; row 0 lies below the board |
| Scan.CoordOf | book_syms.py:42-60 | the text written for a cell has a canonical row and, on the first 26 columns, a lowercase letter that reads back as the same cell |
| Scan.MapCoord | book_syms.py:25-60 | an out-of-bounds match (column past the board, row past it, or row 0) is returned verbatim; an in-bounds one becomes the mapped cell with a canonical row, its letter written by `chr`, lowercase on boards of at most 26 columns |
| Scan.MapSeg | book_syms.py:86-98 | a segment's text after both passes is the direction pass over what the coordinate pass wrote for it; matches stay matches, and a copied character other than a direction symbol is unchanged |
| Scan.CoordPass | book_syms.py:86-98 | a line without letters has no match and is copied; the direction pass over the coordinate pass's output rewrites each scanned segment on its own |
| Scan.DirPass | book_syms.py:89-97 | the direction pass keeps the length, keeps direction symbols symbols, and changes a character exactly when it is a direction symbol, for the mirror only `<` and `>` |
| Scan.DirPassOrder | book_syms.py:62-97 | the direction pass applied twice for the mirror, or four times for the rotation, gives the text back |
| Scan.DirPassAppend | book_syms.py:89-97 | the direction pass works on a concatenation piece by piece |
| Scan.DirPassRender | book_syms.py:86-98 | the direction pass never changes what the coordinate pass wrote, so the two passes act segment by segment |
| Scan.TransformLine | book_syms.py:86-98 | a line transform equals rewriting each scanned segment on its own |
| Scan.RotateLine | book_syms.py:86-91 | on a board of at most 26 columns, the rotated line scans into the rotated segments of the line's scan: no token is split, merged or created |
| Scan.FlipLine | book_syms.py:93-98 | on a board of at most 26 columns, the mirrored line scans into the mirrored segments of the line's scan |
| Scan.MapSegsWellFormed | book_syms.py:86-98 | on boards of at most 26 columns, the rewritten segments are still a well-formed scan |
| Scan.TransformTokens | book_syms.py:86-98 | on a board of at most 26 columns, replaced text is never rescanned: scanning a transformed line gives the mapped segments of the original scan |
| Scan.ApplyCell | book_syms.py:36-60 | any sequence of transforms keeps an in-bounds cell in bounds |
| Scan.ApplySegs | book_syms.py:86-98 | a sequence of transforms maps the segments one by one and keeps them well formed |
| Scan.ApplyLineTokens | book_syms.py:86-98 | on a board of at most 26 columns, a sequence of line transforms, seen through the scan, maps the scanned segments one by one |
| Scan.CanonicalIsCoordOf | book_syms.py:42-60 | a canonical in-bounds token is exactly the text the transforms would write for its own cell |
| Scan.ApplySegInBounds | book_syms.py:36-60 | a non-empty sequence of transforms writes an in-bounds token as the text of its mapped cell |
| Scan.ApplySegOutOfBounds | book_syms.py:36-55 | an out-of-bounds token survives every sequence of transforms unchanged |
| Scan.ApplySegLit | book_syms.py:62-84 | a literal character goes through the direction maps in sequence |
| Scan.SegLaw | book_syms.py:86-98 | two transform sequences that act alike on cells and directions give the same canonical segment |
| Scan.LineLaw | book_syms.py:86-98 | on a board of at most 26 columns, two transform sequences that act alike give the same line, for every line when both are non-empty and for canonical lines otherwise |
| Scan.RotateLineOrder4 | book_syms.py:86-91 | on a board of at most 26 columns, four rotations give back every canonical line |
| Scan.FlipLineInvolution | book_syms.py:93-98 | on a board of at most 26 columns, two mirrors give back every canonical line |
| Scan.FlipRotateAction | book_syms.py:39-84 | the mirror of a rotation acts like three rotations of the mirror, on cells and on directions |
| Scan.FlipRotateLine | book_syms.py:86-98 | on a board of at most 26 columns, the mirror of a rotated line is three rotations of the mirrored line, for every line |
| Scan.TransformCanonical | book_syms.py:42-60 | on a board of at most 26 columns, every transformed line is canonical |
| Scan.ApplyLineToken | book_syms.py:86-98 | on a board of at most 26 columns, a one-token line after any non-empty transform sequence is the text of the mapped cell |
| Scan.NormalFormIff | book_syms.py:19-42 | a token equals its lowercase, leading-zero-free form exactly when it is canonical |
| Scan.RotateLineNormalizes | book_syms.py:86-91 | on a board of at most 26 columns, four rotations of an in-bounds token give its normal form, which is the token itself exactly when the token is canonical |
| Scan.NoLetterNoToken | book_syms.py:15 | text without letters scans into literals only |
| Scan.InertText | book_syms.py:86-98 | text with neither letters nor direction symbols is left unchanged by both transforms |
| Scan.WideBoardBreaksOrder4 | book_syms.py:22-42 | with the ASCII-only scan, on a board wider than 26 columns, one rotation of a token on row 27 or beyond becomes text no later rotation changes, so four rotations do not give the line back |
| Symmetries.StripLeft | book_syms.py:111 | leading whitespace is dropped, and nothing else |
| Symmetries.StripRight | book_syms.py:111 | trailing whitespace is dropped, and nothing else |
| Symmetries.Strip | book_syms.py:111-113 | the stripped line is empty exactly when the line is all whitespace; otherwise it neither starts nor ends with whitespace |
| Symmetries.VariantsShape | book_syms.py:115-135 | there are eight variants: variant i is the line rotated i times, and variant 4 + i is its mirror rotated i times |
| Symmetries.Orbit | book_syms.py:117-135 | the chained rotation list holds, at each position k, the line rotated k times |
| Symmetries.Kept | book_syms.py:110-113 | the kept lines are at most as many as the input lines and none is empty |
| Symmetries.KeptOne | book_syms.py:110-113 | one line is kept, stripped, exactly when it is not blank |
| Symmetries.KeptAppend | book_syms.py:110-113 | the lines kept from two runs of lines laid end to end are those of the first run followed by those of the second |
| Symmetries.KeptFaithful | book_syms.py:110-113 | every kept line is some non-blank input line stripped, and every non-blank input line's stripped form is kept |
| Symmetries.ProcessFile | book_syms.py:110-135 | the loop's output equals `Expand`: eight variants per non-blank line, in input order |
| Symmetries.ExpandBlocks | book_syms.py:110-135 | the output has exactly eight lines per non-blank input line; block j holds the variants of the j-th kept line, and blank lines emit nothing |
| Symmetries.VariantsMirror | book_syms.py:128-135 | on boards of at most 26 columns, variants 6, 7 and 8 are the mirrors of variants 4, 3 and 2, for every line |
| Symmetries.VariantsClose | book_syms.py:117-135 | on a board of at most 26 columns, variant 1 is the stripped line, and one more rotation of variant 8 gives variant 5; for a canonical line, one more rotation of variant 4, or the mirror of variant 5, gives variant 1 |
| OpeningBook.Along | src/book.rs:78-84 | a placement stays on its square; step 0 of a spread is its origin |
| OpeningBook.IsValid | src/book.rs:66-87 | a placement is valid iff it is on board; a spread with an off-board origin is invalid; otherwise a spread is valid iff the square `drops.len()` steps away (North y+d, South y-d, East x+d, West x-d) is on board |
| OpeningBook.IsValidPath | src/book.rs:66-87 | a move is valid exactly when every square of its path is on the board |
| OpeningBook.IsValidMonotone | src/book.rs:66-87 | a move valid on a board is valid on every larger board |
| OpeningBook.Extends | src/book.rs:45 | a line extends the history when it is longer and agrees with it move by move |
| OpeningBook.Contributes | src/book.rs:45-47 | a line contributes when it extends the history and its next move has both its origin and the square `drops.len()` steps away on the board |
| OpeningBook.Candidates | src/book.rs:43-56 | the collected moves are at most one per line; each is valid and is the next move of a contributing line; every contributing line's next move is collected |
| OpeningBook.CandidatesAppend | src/book.rs:43-56 | the collection over two books laid end to end is the two collections concatenated |
| OpeningBook.ShortLinesIgnored | src/book.rs:45 | adding lines no longer than the history changes no candidate |
| OpeningBook.NoCandidates | src/book.rs:45 | lines no longer than the history contribute nothing |
| OpeningBook.CandidatesMonotone | src/book.rs:119-132 | every candidate on a board stays a candidate on a larger board |
| OpeningBook.Book.GetMove | src/book.rs:42-64 | the result is `None` iff no stored line strictly extends the history with a valid next move; any move returned is valid and is the next move of such a line |
| OpeningBook.Book.EveryCandidateReachable | src/book.rs:58-63 | every contributing line's next move is returned for some choice |
| OpeningBook.SelectionExample | src/book.rs:94-115 | with lines `a1 b1` and `a1 c1` and history `a1`, a 5x5 board gives `b1` or `c1` for every choice |
| OpeningBook.InvalidMoveExample | src/book.rs:117-133 | with line `a1 f6` and history `a1`, a 5x5 board gives `None` and a 6x6 board gives `f6` |
| OpeningBook.Trim | src/book.rs:22 | `trim()` leaves nothing exactly when the line is whitespace throughout, and otherwise neither starts nor ends with whitespace |
| OpeningBook.TrimEmptyIffBlank | src/book.rs:22 | the lines `load` skips as blank are exactly those whose `trim()` is empty |
| OpeningBook.WordEnd | src/book.rs:26 | a word runs to the next ASCII whitespace character or to the end |
| OpeningBook.Words | src/book.rs:26 | `split_ascii_whitespace` yields only non-empty words without ASCII whitespace |
| OpeningBook.WordsSplit | src/book.rs:26 | every line is its words laid out with runs of separators: no word holds a separator, words are parted by at least one, so each word is a maximal run and together they are the line without its separators |
| OpeningBook.WordsUnique | src/book.rs:26 | a line laid out as words and separator runs splits into exactly those words, whatever the runs |
| OpeningBook.WordsUnwords | src/book.rs:26 | splitting words joined by single spaces gives the words back |
| OpeningBook.ParsedPrefix | src/book.rs:26-33 | the parsed moves are the longest prefix of the words that all parse: each parses to its move, and the next word, if any, does not parse |
| OpeningBook.ParsedPrefixUnique | src/book.rs:26-33 | that prefix is the only one with those properties |
| OpeningBook.LoadLine | src/book.rs:22-36 | a blank line stores nothing; a stored line is non-empty and is the parsed prefix of its words |
| OpeningBook.LoadLines | src/book.rs:20-37 | no stored line is empty, and there are at most as many as the file's lines |
| OpeningBook.LoadLinesAppend | src/book.rs:20-37 | loading two runs of lines laid end to end is loading each and concatenating |
| OpeningBook.LoadLinesFaithful | src/book.rs:20-37 | every stored line is the parsed prefix of a non-blank file line, and every non-blank line whose first word parses is stored |
| OpeningBook.Load | src/book.rs:15-40 | the loop over the file's lines stores exactly `LoadLines`: blank lines skipped, each line's parsed prefix kept, empty lines dropped |
| OpeningBook.ParseMoves | src/book.rs:25-33 | the inner loop, which pushes each parsed move and breaks at the first failure, returns exactly the parsed prefix of the words |

## Left out

- Command-line parsing, opening and reading files, `print` and
  `sys.exit` in `book_syms.py` are left out because they are I/O.
  `ProcessFile` takes the file's lines and returns the printed lines.
- The file I/O of `Book::load` is left out for the same reason.
  `Load` takes the file's lines already split; `BufRead::lines` errors
  and line splitting are not modelled.
- The file I/O of the Rust tests is left out too. The two tests appear as
  `SelectionExample` and `InvalidMoveExample`, on already parsed moves.
- `GameMove::from_ptn` and the `GameMove` and `Direction` definitions of
  `crate::game` are not part of this model.
  - Parsing is the function parameter `parse`.
  - Moves are a datatype with the fields `is_valid` reads. A placement's
    other fields are one `stone` field.
  - The test lemmas assume that `a1`, `b1`, `c1` and `f6` parse to flat
    placements at (0,0), (1,0), (2,0) and (5,5).
- OpeningBook.Book.GetMove: the random choice is not modelled. The choice is a
  parameter `pick`, used as an index modulo the number of candidates.
  `EveryCandidateReachable` shows every candidate can be picked; nothing
  is said about the distribution.
- OpeningBook.IsValid: `u32` arithmetic is not modelled. Coordinates and
  drop counts are unbounded naturals, so `y + distance` cannot overflow as
  it could for absurd drop counts.
- Scan.Tokenize: the scan accepts only ASCII letters and ASCII digits.
  Python's `\d` also matches other Unicode decimal digits, and
  IGNORECASE `[a-z]` also matches `İ` (304), `ı` (305), `ſ` (383) and
  the Kelvin sign (8490). `_int_to_col` writes these for columns 207,
  208, 286 and 8393, so on boards of 208 columns or more the real scan
  matches them again, and for `İ`, whose `lower()` is two characters,
  `ord` raises `TypeError`. The model does not capture this.
- Grid.IntToCol: boards wider than `MaxSize` columns, where `chr` would
  reach the surrogate range or fail, are excluded by `n <= MaxSize`.
- Symmetries.Strip: whitespace is the fixed list of code points Python's
  `str.isspace` accepts. `OpeningBook.IsBlank` uses Rust's `White_Space`
  list. No other Unicode property is modelled.
- Scan.RotateLineOrder4: proved only for canonical lines on boards of at
  most 26 columns, because the code does not give other lines back (see
  above).
- Scan.FlipLineInvolution: proved only for canonical lines on boards of
  at most 26 columns. Case and leading zeros are normalised as for the
  rotation, and on wider boards the mirror writes non-letter columns (see
  above).
- Decimal.Parse: a row of more than 4300 digits, leading zeros included,
  makes Python's `int()` raise `ValueError`. This is the default
  `int_max_str_digits` limit. It happens before the bounds check, so the
  whole run aborts with a traceback. The model reads rows of any length:
  it maps or passes such a token through, and `ProcessFile` prints eight
  lines for the line.
