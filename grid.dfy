/** The pure mappers of the board-symmetry expander: column letters,
    cells of an N x N board and the four direction symbols, under a
    90-degree clockwise rotation and a mirror across the vertical axis. */
module Grid {

  /** Largest board for which `chr(x + ord('a'))` stays a Unicode scalar
      value below the surrogate range. */
  const MaxSize: int := 0xD800 - 'a' as int

  /** The letters `[a-z]` matches under IGNORECASE, restricted to ASCII. */
  predicate IsLetter(c: char) {
    'a' <= c <= 'z' || 'A' <= c <= 'Z'
  }

  predicate IsLower(c: char) {
    'a' <= c <= 'z'
  }

  /** `char.lower()` on an ASCII letter. */
  function Lower(c: char): (r: char)
    requires IsLetter(c)
    ensures IsLower(r)
    ensures IsLower(c) ==> r == c
    ensures r as int - c as int in {0, 32}
  {
    if 'A' <= c <= 'Z' then (c as int + 32) as char else c
  }

  /** `_int_to_col`: `chr(x + ord('a'))`. Beyond 26 it yields non-letters. */
  function IntToCol(x: int): (c: char)
    requires 0 <= x < MaxSize
    ensures c as int >= 'a' as int
    ensures IsLower(c) <==> x < 26
  {
    (x + 'a' as int) as char
  }

  /** `_col_to_int`: `ord(char.lower()) - ord('a')`; either case gives the same column. */
  function ColToInt(c: char): (x: int)
    requires IsLetter(c)
    ensures 0 <= x < 26
    ensures IntToCol(x) == Lower(c)
  {
    Lower(c) as int - 'a' as int
  }

  /** A 0-based cell: `x` the column, `y` the row. */
  datatype Cell = Cell(x: int, y: int)

  predicate InBounds(n: int, c: Cell) {
    0 <= c.x < n && 0 <= c.y < n
  }

  /** The two generators of the symmetry group the expander uses. */
  datatype Op = Rotate | Flip

  /** `_rotate_coord_90` / `_flip_coord_horizontal` on an in-bounds cell. */
  function MapCell(op: Op, n: int, c: Cell): (r: Cell)
    requires InBounds(n, c)
    ensures InBounds(n, r)
  {
    match op
    case Rotate => Cell(c.y, n - 1 - c.x)
    case Flip => Cell(n - 1 - c.x, c.y)
  }

  /** Four quarter turns bring every cell back; one fixes only the centre. */
  lemma RotateCellOrder4(n: int, c: Cell)
    requires InBounds(n, c)
    ensures MapCell(Rotate, n, MapCell(Rotate, n, MapCell(Rotate, n, MapCell(Rotate, n, c)))) == c
    ensures MapCell(Rotate, n, c) == c <==> 2 * c.x == n - 1 && 2 * c.y == n - 1
  {
  }

  /** The mirror is an involution and fixes exactly the middle column. */
  lemma FlipCellInvolution(n: int, c: Cell)
    requires InBounds(n, c)
    ensures MapCell(Flip, n, MapCell(Flip, n, c)) == c
    ensures MapCell(Flip, n, c) == c <==> 2 * c.x == n - 1
  {
  }

  /** The direction symbols + > - < (up, right, down, left). */
  predicate IsDir(c: char) {
    c == '+' || c == '>' || c == '-' || c == '<'
  }

  /** The character class `[+\-<> ]` of the direction pass: the four
      symbols and, incidentally, a space. */
  predicate MatchesDirPattern(c: char) {
    IsDir(c) || c == ' '
  }

  /** The dictionary of `_rotate_dir_90` / `_flip_dir_horizontal`. */
  function DirTable(op: Op): map<char, char> {
    match op
    case Rotate => map['+' := '>', '>' := '-', '-' := '<', '<' := '+']
    case Flip => map['<' := '>', '>' := '<']
  }

  /** The rotation's table permutes the four symbols and the mirror's
      permutes `<` and `>`; neither leaves a symbol of its table in place. */
  lemma DirTablePermutes(op: Op)
    ensures op == Rotate ==> DirTable(op).Keys == {'+', '>', '-', '<'}
    ensures op == Flip ==> DirTable(op).Keys == {'<', '>'}
    ensures DirTable(op).Values == DirTable(op).Keys
    ensures forall c :: c in DirTable(op) ==> DirTable(op)[c] != c
  {
  }

  /** One replacement of the direction pass: a matched character goes
      through `mapping.get(char, char)`; an unmatched one is copied. */
  function MapDir(op: Op, c: char): (r: char)
    ensures IsDir(r) <==> IsDir(c)
    ensures !IsDir(c) ==> r == c
    ensures op == Flip ==> (r == c <==> c != '<' && c != '>')
    ensures op == Rotate ==> (r == c <==> !IsDir(c))
  {
    if MatchesDirPattern(c) then
      var table := DirTable(op);
      if c in table then table[c] else c
    else c
  }

  /** The rotation acts on the four symbols as one 4-cycle. */
  lemma RotateDirOrder4(c: char)
    ensures MapDir(Rotate, MapDir(Rotate, MapDir(Rotate, MapDir(Rotate, c)))) == c
    ensures IsDir(c) ==> MapDir(Rotate, MapDir(Rotate, c)) != c
  {
  }

  /** The mirror swaps `<` and `>` and is its own inverse. */
  lemma FlipDirInvolution(c: char)
    ensures MapDir(Flip, MapDir(Flip, c)) == c
  {
  }

  /** The cell one step from `c` in direction `d`; `+` is up, towards higher rows. */
  function Step(c: Cell, d: char): (r: Cell)
    requires IsDir(d)
    ensures (r.x == c.x && (r.y == c.y + 1 || r.y == c.y - 1)) || (r.y == c.y && (r.x == c.x + 1 || r.x == c.x - 1))
  {
    if d == '+' then Cell(c.x, c.y + 1)
    else if d == '>' then Cell(c.x + 1, c.y)
    else if d == '-' then Cell(c.x, c.y - 1)
    else Cell(c.x - 1, c.y)
  }

  /** Coordinates and directions are rotated consistently: the neighbour
      of `c` in direction `d`, once rotated, is the rotated cell's
      neighbour in the rotated direction; likewise for the mirror. */
  lemma StepCommutes(op: Op, n: int, c: Cell, d: char)
    requires IsDir(d) && InBounds(n, c) && InBounds(n, Step(c, d))
    ensures IsDir(MapDir(op, d))
    ensures MapCell(op, n, Step(c, d)) == Step(MapCell(op, n, c), MapDir(op, d))
  {
  }
}
