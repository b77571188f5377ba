/** The line transforms `rotate_line_90` and `flip_line_horizontal`: a
    left-to-right, non-overlapping scan that rewrites every coordinate
    token `[A-Za-z][0-9]+`, followed by a pass that rewrites every
    character of the class `[+\-<> ]`. */
module Scan {
  import opened Decimal
  import opened Grid

  /** A piece of a scanned line: a coordinate match (its letter and its
      digits), or one character the coordinate scan copies. */
  datatype Segment = Coord(col: char, row: string) | Lit(c: char)

  /** A coordinate segment is a match of `([a-z])(\d+)`. */
  predicate IsToken(seg: Segment) {
    seg.Coord? ==> IsLetter(seg.col) && |seg.row| >= 1 && AllDigits(seg.row)
  }

  predicate AllTokens(segs: seq<Segment>) {
    forall i :: 0 <= i < |segs| ==> IsToken(segs[i])
  }

  function Text(seg: Segment): (t: string)
    ensures |t| >= 1
  {
    match seg
    case Coord(col, row) => [col] + row
    case Lit(c) => [c]
  }

  function Render(segs: seq<Segment>): (s: string)
    ensures |s| >= |segs|
  {
    if segs == [] then [] else Text(segs[0]) + Render(segs[1..])
  }

  /** A digit that the scan copied by itself. */
  predicate StartsWithDigit(seg: Segment) {
    seg.Lit? && IsDigit(seg.c)
  }

  /** How the scan leaves neighbours: a copied digit never follows a
      match (digit runs are maximal) nor a copied letter (that letter
      would have begun a match). */
  predicate Joinable(a: Segment, b: Segment) {
    StartsWithDigit(b) ==> a.Lit? && !IsLetter(a.c)
  }

  /** Exactly the segment sequences the scan can produce. */
  predicate WellFormed(segs: seq<Segment>) {
    && AllTokens(segs)
    && forall i :: 0 < i < |segs| ==> Joinable(segs[i - 1], segs[i])
  }

  /** The end of the maximal run of digits that starts at `i`. */
  function DigitRunEnd(s: string, i: nat): (k: nat)
    requires i <= |s|
    ensures i <= k <= |s|
    ensures AllDigits(s[i..k])
    ensures k < |s| ==> !IsDigit(s[k])
    decreases |s| - i
  {
    if i < |s| && IsDigit(s[i]) then DigitRunEnd(s, i + 1) else i
  }

  /** The maximal digit run is the only run with those properties. */
  lemma {:induction false} DigitRunEndUnique(s: string, i: nat, k: nat)
    requires i <= k <= |s|
    requires AllDigits(s[i..k])
    requires k < |s| ==> !IsDigit(s[k])
    ensures DigitRunEnd(s, i) == k
    decreases k - i
  {
    if i < k {
      assert s[i] == s[i..k][0];
      assert s[i + 1..k] == s[i..k][1..];
      DigitRunEndUnique(s, i + 1, k);
    }
  }

  lemma RenderHead(segs: seq<Segment>)
    ensures segs != [] ==> Render(segs)[0] == Text(segs[0])[0]
  {
  }

  /** Prepending one segment to a sequence the scan could produce. */
  lemma ConsWellFormed(x: Segment, rest: seq<Segment>)
    requires IsToken(x) && WellFormed(rest)
    requires rest != [] ==> Joinable(x, rest[0])
    ensures WellFormed([x] + rest)
    ensures Render([x] + rest) == Text(x) + Render(rest)
  {
    var segs := [x] + rest;
    assert segs[1..] == rest;
    forall i | 0 < i < |segs| ensures Joinable(segs[i - 1], segs[i]) {
      if i > 1 {
        assert segs[i - 1] == rest[i - 2] && segs[i] == rest[i - 1];
      }
    }
  }

  /** The regex scan: at each position, a letter followed by a digit
      begins a match that takes the letter and the maximal run of
      digits; otherwise one character is copied. Matches never overlap
      and the text after a match is scanned afresh. */
  function Tokenize(s: string): (segs: seq<Segment>)
    ensures WellFormed(segs)
    ensures Render(segs) == s
    decreases |s|
  {
    if s == [] then []
    else if |s| >= 2 && IsLetter(s[0]) && IsDigit(s[1]) then
      var k := DigitRunEnd(s, 1);
      var rest := Tokenize(s[k..]);
      ScanMatch(s, k, rest);
      [Coord(s[0], s[1..k])] + rest
    else
      var rest := Tokenize(s[1..]);
      ScanCopy(s, rest);
      [Lit(s[0])] + rest
  }

  /** A match followed by the scan of the text after it. */
  lemma ScanMatch(s: string, k: nat, rest: seq<Segment>)
    requires 2 <= k <= |s| && IsLetter(s[0]) && AllDigits(s[1..k]) && (k < |s| ==> !IsDigit(s[k]))
    requires WellFormed(rest) && Render(rest) == s[k..]
    ensures WellFormed([Coord(s[0], s[1..k])] + rest)
    ensures Render([Coord(s[0], s[1..k])] + rest) == s
  {
    var x := Coord(s[0], s[1..k]);
    if rest != [] {
      RenderHead(rest);
      assert Text(rest[0])[0] == s[k];
    }
    ConsWellFormed(x, rest);
    assert Text(x) == s[..k];
    assert s == s[..k] + s[k..];
  }

  /** A copied character followed by the scan of the text after it. */
  lemma ScanCopy(s: string, rest: seq<Segment>)
    requires s != [] && !(|s| >= 2 && IsLetter(s[0]) && IsDigit(s[1]))
    requires WellFormed(rest) && Render(rest) == s[1..]
    ensures WellFormed([Lit(s[0])] + rest)
    ensures Render([Lit(s[0])] + rest) == s
  {
    if rest != [] {
      RenderHead(rest);
      assert Text(rest[0])[0] == s[1];
      assert Joinable(Lit(s[0]), rest[0]);
    }
    ConsWellFormed(Lit(s[0]), rest);
    assert s == [s[0]] + s[1..];
  }

  /** Scanning a rendered well-formed sequence gives it back: the scan
      and the rendering are inverse on exactly the scan's outputs. */
  lemma {:induction false} TokenizeRender(segs: seq<Segment>)
    requires WellFormed(segs)
    ensures Tokenize(Render(segs)) == segs
  {
    if segs != [] {
      var s := Render(segs);
      var rest := segs[1..];
      assert WellFormed(rest) by {
        forall i | 0 < i < |rest| ensures Joinable(rest[i - 1], rest[i]) {
          assert rest[i - 1] == segs[i] && rest[i] == segs[i + 1];
        }
      }
      TokenizeRender(rest);
      var r := Render(rest);
      assert s == Text(segs[0]) + r;
      if rest != [] {
        RenderHead(rest);
        assert Joinable(segs[0], segs[1]);
      }
      match segs[0]
      case Coord(col, row) =>
        var k := 1 + |row|;
        assert s[1..k] == row && s[k..] == r;
        assert AllDigits(s[1..k]);
        if k < |s| {
          assert s[k] == Text(rest[0])[0];
        }
        DigitRunEndUnique(s, 1, k);
      case Lit(c) =>
        assert s[1..] == r;
        if |s| >= 2 && IsDigit(s[1]) {
          assert s[1] == Text(rest[0])[0];
        }
    }
  }

  /** The cell a coordinate match denotes: column letter, 1-based row.
      Both cases of a letter denote the same column, and row 0 (or a row
      of zeros) denotes the row below the board. */
  function CellOf(col: char, row: string): (c: Cell)
    requires IsLetter(col) && AllDigits(row)
    ensures 0 <= c.x < 26 && IntToCol(c.x) == Lower(col)
    ensures c.y >= -1 && c.y + 1 == Parse(row)
  {
    Cell(ColToInt(col), Parse(row) - 1)
  }

  /** The text `_int_to_col` and `str` write for an in-bounds cell: a
      canonical row and, on the first 26 columns, a lowercase letter that
      reads back as the same cell. */
  function CoordOf(c: Cell): (seg: Segment)
    requires 0 <= c.x < MaxSize && c.y >= 0
    ensures seg.Coord? && Canonical(seg.row) && Parse(seg.row) == c.y + 1
    ensures c.x < 26 ==> IsLower(seg.col) && CellOf(seg.col, seg.row) == c
  {
    ParseShow(c.y + 1);
    Coord(IntToCol(c.x), Show(c.y + 1))
  }

  /** `_rotate_coord_90` / `_flip_coord_horizontal` on one match. An
      out-of-bounds match (column past the board, row past it, or row 0)
      is returned exactly as matched; an in-bounds one is replaced by
      the mapped cell, written lowercase without leading zeros. */
  function MapCoord(op: Op, n: int, col: char, row: string): (r: Segment)
    requires n <= MaxSize && IsLetter(col) && AllDigits(row)
    ensures r.Coord? && !IsDir(r.col) && AllDigits(r.row)
    ensures |row| >= 1 ==> |r.row| >= 1
    ensures !InBounds(n, CellOf(col, row)) ==> r == Coord(col, row)
    ensures InBounds(n, CellOf(col, row)) ==>
              var m := MapCell(op, n, CellOf(col, row));
              && Canonical(r.row)
              && Parse(r.row) == m.y + 1
              && r.col == IntToCol(m.x)
              && (n <= 26 ==> IsLower(r.col) && CellOf(r.col, r.row) == m)
  {
    var x := ColToInt(col);
    var y := Parse(row) - 1;
    if !(0 <= x < n && 0 <= y < n) then Coord(col, row)
    else
      CoordOf(MapCell(op, n, Cell(x, y)))
  }

  /** The coordinate pass alone, on one segment. */
  function SubCoord(op: Op, n: int, seg: Segment): Segment
    requires n <= MaxSize && IsToken(seg)
  {
    match seg
    case Coord(col, row) => MapCoord(op, n, col, row)
    case Lit(_) => seg
  }

  /** Both passes, on one segment: the direction pass run over what the
      coordinate pass wrote for it. A match stays a match and a copied
      character stays a copied character, which is left alone unless it
      is a direction symbol. */
  function MapSeg(op: Op, n: int, seg: Segment): (r: Segment)
    requires n <= MaxSize && IsToken(seg)
    ensures r.Lit? <==> seg.Lit?
    ensures Text(r) == DirPass(op, Text(SubCoord(op, n, seg)))
    ensures seg.Lit? && !IsDir(seg.c) ==> r == seg
  {
    match seg
    case Coord(col, row) =>
      var m := MapCoord(op, n, col, row);
      assert forall i :: 0 <= i < |Text(m)| ==> !IsDir(Text(m)[i]) by {
        forall i | 0 < i < |Text(m)| ensures !IsDir(Text(m)[i]) {
          assert Text(m)[i] == m.row[i - 1];
        }
      }
      m
    case Lit(c) => Lit(MapDir(op, c))
  }

  function SubCoords(op: Op, n: int, segs: seq<Segment>): (r: seq<Segment>)
    requires n <= MaxSize && AllTokens(segs)
    ensures |r| == |segs|
  {
    seq(|segs|, i requires 0 <= i < |segs| => SubCoord(op, n, segs[i]))
  }

  function MapSegs(op: Op, n: int, segs: seq<Segment>): (r: seq<Segment>)
    requires n <= MaxSize && AllTokens(segs)
    ensures |r| == |segs|
  {
    seq(|segs|, i requires 0 <= i < |segs| => MapSeg(op, n, segs[i]))
  }

  /** `coord_pattern.sub(...)`: each match replaced, everything else copied,
      replaced text never rescanned. A line without letters has no match
      and is copied; what the pass writes is never changed by the
      direction pass, so the two passes together rewrite each scanned
      segment on its own. */
  function CoordPass(op: Op, n: int, s: string): (r: string)
    requires n <= MaxSize
    ensures (forall i :: 0 <= i < |s| ==> !IsLetter(s[i])) ==> r == s
    ensures DirPass(op, r) == Render(MapSegs(op, n, Tokenize(s)))
  {
    var segs := Tokenize(s);
    DirPassRender(op, n, segs);
    if forall i :: 0 <= i < |s| ==> !IsLetter(s[i]) then
      NoLetterNoToken(s);
      assert SubCoords(op, n, segs) == segs;
      Render(SubCoords(op, n, segs))
    else
      Render(SubCoords(op, n, segs))
  }

  /** `dir_pattern.sub(...)`: one character at a time, so the length is
      kept, a direction symbol stays a direction symbol, and only the
      four direction symbols can change: the rotation changes every one
      of them, the mirror only `<` and `>`. */
  function DirPass(op: Op, s: string): (r: string)
    ensures |r| == |s|
    ensures forall i :: 0 <= i < |s| ==> (IsDir(r[i]) <==> IsDir(s[i]))
    ensures forall i :: 0 <= i < |s| ==> (r[i] == s[i] <==> !IsDir(s[i]) || (op == Flip && s[i] != '<' && s[i] != '>'))
  {
    seq(|s|, i requires 0 <= i < |s| => MapDir(op, s[i]))
  }

  /** The two passes of one transform: a line transform equals rewriting
      each scanned segment on its own. */
  function TransformLine(op: Op, n: int, s: string): (r: string)
    requires n <= MaxSize
    ensures r == Render(MapSegs(op, n, Tokenize(s)))
  {
    DirPass(op, CoordPass(op, n, s))
  }

  /** `rotate_line_90`. On a board of at most 26 columns its output scans
      into the rotated segments of the line's scan: no token is split,
      merged or created. */
  function RotateLine(n: int, s: string): (r: string)
    requires n <= MaxSize
    ensures n <= 26 ==> Tokenize(r) == MapSegs(Rotate, n, Tokenize(s))
  {
    if n <= 26 then
      TransformTokens(Rotate, n, s);
      TransformLine(Rotate, n, s)
    else
      TransformLine(Rotate, n, s)
  }

  /** `flip_line_horizontal`. On a board of at most 26 columns its output
      scans into the mirrored segments of the line's scan. */
  function FlipLine(n: int, s: string): (r: string)
    requires n <= MaxSize
    ensures n <= 26 ==> Tokenize(r) == MapSegs(Flip, n, Tokenize(s))
  {
    if n <= 26 then
      TransformTokens(Flip, n, s);
      TransformLine(Flip, n, s)
    else
      TransformLine(Flip, n, s)
  }

  lemma DirPassAppend(op: Op, a: string, b: string)
    ensures DirPass(op, a + b) == DirPass(op, a) + DirPass(op, b)
  {
  }

  /** The direction pass undoes itself: twice for the mirror, four times
      for the rotation. */
  lemma DirPassOrder(s: string)
    ensures DirPass(Flip, DirPass(Flip, s)) == s
    ensures DirPass(Rotate, DirPass(Rotate, DirPass(Rotate, DirPass(Rotate, s)))) == s
  {
    var f := DirPass(Flip, DirPass(Flip, s));
    forall i | 0 <= i < |s| ensures f[i] == s[i] {
      FlipDirInvolution(s[i]);
    }
    var r := DirPass(Rotate, DirPass(Rotate, DirPass(Rotate, DirPass(Rotate, s))));
    forall i | 0 <= i < |s| ensures r[i] == s[i] {
      RotateDirOrder4(s[i]);
    }
  }

  /** The direction pass never touches what the coordinate pass wrote,
      so the two passes act segment by segment. */
  lemma {:induction false} DirPassRender(op: Op, n: int, segs: seq<Segment>)
    requires n <= MaxSize && AllTokens(segs)
    ensures DirPass(op, Render(SubCoords(op, n, segs))) == Render(MapSegs(op, n, segs))
  {
    if segs != [] {
      var sub := SubCoords(op, n, segs);
      var mapped := MapSegs(op, n, segs);
      assert sub[1..] == SubCoords(op, n, segs[1..]);
      assert mapped[1..] == MapSegs(op, n, segs[1..]);
      DirPassRender(op, n, segs[1..]);
      DirPassAppend(op, Text(sub[0]), Render(sub[1..]));
    }
  }

  /** On boards of at most 26 columns a transform keeps the shape the scan
      relies on, so its output scans into the mapped segments: no token is
      split, merged or created. */
  lemma MapSegsWellFormed(op: Op, n: int, segs: seq<Segment>)
    requires n <= 26 && WellFormed(segs)
    ensures WellFormed(MapSegs(op, n, segs))
  {
    var r := MapSegs(op, n, segs);
    forall i | 0 <= i < |r| ensures IsToken(r[i]) {
      assert IsToken(segs[i]);
    }
    forall i | 0 < i < |r| ensures Joinable(r[i - 1], r[i]) {
      assert Joinable(segs[i - 1], segs[i]);
    }
  }

  /** One transform, seen through the scan. */
  lemma TransformTokens(op: Op, n: int, s: string)
    requires n <= 26
    ensures TransformLine(op, n, s) == Render(MapSegs(op, n, Tokenize(s)))
    ensures Tokenize(TransformLine(op, n, s)) == MapSegs(op, n, Tokenize(s))
  {
    MapSegsWellFormed(op, n, Tokenize(s));
    TokenizeRender(MapSegs(op, n, Tokenize(s)));
  }

  /** A line whose in-bounds coordinate tokens are written the way the
      transforms write them: a lowercase letter, a row without leading
      zeros. Out-of-bounds tokens may be written any way. */
  predicate CanonicalSeg(n: int, seg: Segment) {
    && IsToken(seg)
    && (seg.Coord? && InBounds(n, CellOf(seg.col, seg.row)) ==> IsLower(seg.col) && Canonical(seg.row))
  }

  predicate CanonicalLine(n: int, s: string) {
    var segs := Tokenize(s);
    forall i :: 0 <= i < |segs| ==> CanonicalSeg(n, segs[i])
  }

  /** A sequence of transforms, applied first to last. */
  function ApplyLine(ops: seq<Op>, n: int, s: string): string
    requires n <= MaxSize
    decreases |ops|
  {
    if ops == [] then s else ApplyLine(ops[1..], n, TransformLine(ops[0], n, s))
  }

  function ApplyCell(ops: seq<Op>, n: int, c: Cell): (r: Cell)
    requires InBounds(n, c)
    ensures InBounds(n, r)
    decreases |ops|
  {
    if ops == [] then c else ApplyCell(ops[1..], n, MapCell(ops[0], n, c))
  }

  function ApplyDir(ops: seq<Op>, d: char): char
    decreases |ops|
  {
    if ops == [] then d else ApplyDir(ops[1..], MapDir(ops[0], d))
  }

  function ApplySeg(ops: seq<Op>, n: int, seg: Segment): (r: Segment)
    requires n <= 26 && IsToken(seg)
    ensures IsToken(r)
    decreases |ops|
  {
    if ops == [] then seg else ApplySeg(ops[1..], n, MapSeg(ops[0], n, seg))
  }

  function ApplySegs(ops: seq<Op>, n: int, segs: seq<Segment>): (r: seq<Segment>)
    requires n <= 26 && WellFormed(segs)
    ensures WellFormed(r) && |r| == |segs|
    ensures forall i :: 0 <= i < |r| ==> r[i] == ApplySeg(ops, n, segs[i])
    decreases |ops|
  {
    if ops == [] then segs
    else
      MapSegsWellFormed(ops[0], n, segs);
      ApplySegs(ops[1..], n, MapSegs(ops[0], n, segs))
  }

  /** Any sequence of transforms, seen through the scan. */
  lemma {:induction false} ApplyLineTokens(ops: seq<Op>, n: int, s: string)
    requires n <= 26
    ensures Tokenize(ApplyLine(ops, n, s)) == ApplySegs(ops, n, Tokenize(s))
    ensures ApplyLine(ops, n, s) == Render(ApplySegs(ops, n, Tokenize(s)))
    decreases |ops|
  {
    if ops != [] {
      TransformTokens(ops[0], n, s);
      ApplyLineTokens(ops[1..], n, TransformLine(ops[0], n, s));
    }
  }

  /** A canonical in-bounds token is exactly what the transforms would
      write for its cell. */
  lemma CanonicalIsCoordOf(n: int, seg: Segment)
    requires n <= 26 && CanonicalSeg(n, seg) && seg.Coord?
    requires InBounds(n, CellOf(seg.col, seg.row))
    ensures seg == CoordOf(CellOf(seg.col, seg.row))
  {
    ShowParse(seg.row);
  }

  /** After at least one transform, an in-bounds token is the image of
      its cell, written canonically. */
  lemma {:induction false} ApplySegInBounds(ops: seq<Op>, n: int, seg: Segment)
    requires n <= 26 && IsToken(seg) && seg.Coord? && InBounds(n, CellOf(seg.col, seg.row))
    requires ops != []
    ensures ApplySeg(ops, n, seg) == CoordOf(ApplyCell(ops, n, CellOf(seg.col, seg.row)))
    decreases |ops|
  {
    var cell := CellOf(seg.col, seg.row);
    var m := MapCell(ops[0], n, cell);
    var first := MapSeg(ops[0], n, seg);
    assert first.Coord? && CellOf(first.col, first.row) == m;
    if ops[1..] == [] {
      ShowParse(first.row);
    } else {
      ApplySegInBounds(ops[1..], n, first);
    }
  }

  /** An out-of-bounds token passes through every transform verbatim. */
  lemma {:induction false} ApplySegOutOfBounds(ops: seq<Op>, n: int, seg: Segment)
    requires n <= 26 && IsToken(seg) && seg.Coord? && !InBounds(n, CellOf(seg.col, seg.row))
    ensures ApplySeg(ops, n, seg) == seg
    decreases |ops|
  {
    if ops != [] {
      ApplySegOutOfBounds(ops[1..], n, seg);
    }
  }

  /** A copied character only ever goes through the direction maps. */
  lemma {:induction false} ApplySegLit(ops: seq<Op>, n: int, c: char)
    requires n <= 26
    ensures ApplySeg(ops, n, Lit(c)) == Lit(ApplyDir(ops, c))
    decreases |ops|
  {
    if ops != [] {
      ApplySegLit(ops[1..], n, MapDir(ops[0], c));
    }
  }

  /** Two sequences of transforms that act alike on every in-bounds cell
      and on every character. */
  ghost predicate SameAction(ops1: seq<Op>, ops2: seq<Op>, n: int) {
    && (forall c :: InBounds(n, c) ==> ApplyCell(ops1, n, c) == ApplyCell(ops2, n, c))
    && (forall d :: ApplyDir(ops1, d) == ApplyDir(ops2, d))
  }

  /** An in-bounds token after any transforms: the image of its cell,
      when the token was canonical or at least one transform ran. */
  lemma ApplySegCell(ops: seq<Op>, n: int, seg: Segment)
    requires n <= 26 && IsToken(seg) && seg.Coord? && InBounds(n, CellOf(seg.col, seg.row))
    requires ops == [] ==> CanonicalSeg(n, seg)
    ensures ApplySeg(ops, n, seg) == CoordOf(ApplyCell(ops, n, CellOf(seg.col, seg.row)))
  {
    if ops == [] {
      CanonicalIsCoordOf(n, seg);
    } else {
      ApplySegInBounds(ops, n, seg);
    }
  }

  lemma SegLaw(ops1: seq<Op>, ops2: seq<Op>, n: int, seg: Segment)
    requires n <= 26 && SameAction(ops1, ops2, n) && IsToken(seg)
    requires ops1 == [] || ops2 == [] ==> CanonicalSeg(n, seg)
    ensures ApplySeg(ops1, n, seg) == ApplySeg(ops2, n, seg)
  {
    match seg
    case Lit(c) =>
      ApplySegLit(ops1, n, c);
      ApplySegLit(ops2, n, c);
    case Coord(col, row) =>
      if !InBounds(n, CellOf(col, row)) {
        ApplySegOutOfBounds(ops1, n, seg);
        ApplySegOutOfBounds(ops2, n, seg);
      } else {
        ApplySegCell(ops1, n, seg);
        ApplySegCell(ops2, n, seg);
      }
  }

  /** Transforms that act alike on cells and directions produce the same
      line: from any line when both do at least one step, and from a
      canonical line in every case. */
  lemma LineLaw(ops1: seq<Op>, ops2: seq<Op>, n: int, s: string)
    requires n <= 26 && SameAction(ops1, ops2, n)
    requires ops1 == [] || ops2 == [] ==> CanonicalLine(n, s)
    ensures ApplyLine(ops1, n, s) == ApplyLine(ops2, n, s)
  {
    var segs := Tokenize(s);
    ApplyLineTokens(ops1, n, s);
    ApplyLineTokens(ops2, n, s);
    var r1 := ApplySegs(ops1, n, segs);
    var r2 := ApplySegs(ops2, n, segs);
    forall i | 0 <= i < |segs| ensures r1[i] == r2[i] {
      SegLaw(ops1, ops2, n, segs[i]);
    }
    assert r1 == r2;
  }

  /** The four rotations written as one sequence of transforms. */
  lemma ApplyRotations(n: int, s: string)
    requires n <= MaxSize
    ensures ApplyLine([Rotate, Rotate, Rotate, Rotate], n, s)
         == RotateLine(n, RotateLine(n, RotateLine(n, RotateLine(n, s))))
  {
    assert [Rotate, Rotate, Rotate, Rotate][1..] == [Rotate, Rotate, Rotate];
    assert [Rotate, Rotate, Rotate][1..] == [Rotate, Rotate];
    assert [Rotate, Rotate][1..] == [Rotate];
  }

  lemma FourRotationsCell(n: int, c: Cell)
    requires InBounds(n, c)
    ensures ApplyCell([Rotate, Rotate, Rotate, Rotate], n, c) == c
  {
    var ops := [Rotate, Rotate, Rotate, Rotate];
    assert ops[1..] == [Rotate, Rotate, Rotate];
    assert ops[1..][1..] == [Rotate, Rotate];
    assert ops[1..][1..][1..] == [Rotate];
    RotateCellOrder4(n, c);
  }

  lemma FourRotationsDir(d: char)
    ensures ApplyDir([Rotate, Rotate, Rotate, Rotate], d) == d
  {
    var ops := [Rotate, Rotate, Rotate, Rotate];
    assert ops[1..] == [Rotate, Rotate, Rotate];
    assert ops[1..][1..] == [Rotate, Rotate];
    assert ops[1..][1..][1..] == [Rotate];
    RotateDirOrder4(d);
  }

  /** `rotate_line_90` applied four times gives back a canonical line, on a
      board of at most 26 columns. */
  lemma RotateLineOrder4(n: int, s: string)
    requires n <= 26 && CanonicalLine(n, s)
    ensures RotateLine(n, RotateLine(n, RotateLine(n, RotateLine(n, s)))) == s
  {
    var ops := [Rotate, Rotate, Rotate, Rotate];
    forall c | InBounds(n, c) ensures ApplyCell(ops, n, c) == ApplyCell([], n, c) {
      FourRotationsCell(n, c);
    }
    forall d ensures ApplyDir(ops, d) == ApplyDir([], d) {
      FourRotationsDir(d);
    }
    LineLaw(ops, [], n, s);
    ApplyRotations(n, s);
  }

  /** `flip_line_horizontal` applied twice gives back a canonical line, on
      a board of at most 26 columns. */
  lemma FlipLineInvolution(n: int, s: string)
    requires n <= 26 && CanonicalLine(n, s)
    ensures FlipLine(n, FlipLine(n, s)) == s
  {
    var ops := [Flip, Flip];
    assert ops[1..] == [Flip];
    forall c | InBounds(n, c) ensures ApplyCell(ops, n, c) == ApplyCell([], n, c) {
      FlipCellInvolution(n, c);
    }
    forall d ensures ApplyDir(ops, d) == ApplyDir([], d) {
      FlipDirInvolution(d);
    }
    LineLaw(ops, [], n, s);
  }

  lemma FlipRotateAction(n: int)
    ensures SameAction([Rotate, Flip], [Flip, Rotate, Rotate, Rotate], n)
  {
    var ops1 := [Rotate, Flip];
    var ops2 := [Flip, Rotate, Rotate, Rotate];
    assert ops1[1..] == [Flip];
    assert ops2[1..] == [Rotate, Rotate, Rotate];
    assert ops2[1..][1..] == [Rotate, Rotate];
    assert ops2[1..][1..][1..] == [Rotate];
    forall c | InBounds(n, c) ensures ApplyCell(ops1, n, c) == ApplyCell(ops2, n, c) {
      var r := MapCell(Rotate, n, c);
      assert ApplyCell(ops1, n, c) == ApplyCell([Flip], n, r);
      assert [Flip][1..] == [];
      assert ApplyCell([Flip], n, r) == MapCell(Flip, n, r) == Cell(n - 1 - c.y, n - 1 - c.x);
      var f := MapCell(Flip, n, c);
      var f1 := MapCell(Rotate, n, f);
      var f2 := MapCell(Rotate, n, f1);
      assert ApplyCell(ops2, n, c) == ApplyCell([Rotate, Rotate, Rotate], n, f);
      assert ApplyCell([Rotate, Rotate, Rotate], n, f) == ApplyCell([Rotate, Rotate], n, f1);
      assert ApplyCell([Rotate, Rotate], n, f1) == ApplyCell([Rotate], n, f2);
      assert [Rotate][1..] == [];
      assert ApplyCell([Rotate], n, f2) == MapCell(Rotate, n, f2) == Cell(n - 1 - c.y, n - 1 - c.x);
    }
    forall d ensures ApplyDir(ops1, d) == ApplyDir(ops2, d) {
      assert ApplyDir(ops1, d) == MapDir(Flip, MapDir(Rotate, d));
    }
  }

  /** The dihedral relation: a rotation followed by the mirror equals the
      mirror followed by three rotations, on every line. */
  lemma FlipRotateLine(n: int, s: string)
    requires n <= 26
    ensures FlipLine(n, RotateLine(n, s)) == RotateLine(n, RotateLine(n, RotateLine(n, FlipLine(n, s))))
  {
    var ops1 := [Rotate, Flip];
    var ops2 := [Flip, Rotate, Rotate, Rotate];
    FlipRotateAction(n);
    LineLaw(ops1, ops2, n, s);
    assert ops1[1..] == [Flip];
    assert ops2[1..] == [Rotate, Rotate, Rotate];
    ApplyRotations(n, FlipLine(n, s));
    assert [Rotate, Rotate, Rotate, Rotate][1..] == [Rotate, Rotate, Rotate];
  }

  /** Every output of a transform is canonical, so from the first
      transform on, four rotations and two mirrors are exact on any line. */
  lemma TransformCanonical(op: Op, n: int, s: string)
    requires n <= 26
    ensures CanonicalLine(n, TransformLine(op, n, s))
  {
    TransformTokens(op, n, s);
    var segs := Tokenize(s);
    var r := MapSegs(op, n, segs);
    forall i | 0 <= i < |r| ensures CanonicalSeg(n, r[i]) {
      assert IsToken(segs[i]);
    }
  }

  lemma SingleToken(col: char, row: string)
    requires IsLetter(col) && |row| >= 1 && AllDigits(row)
    ensures Tokenize([col] + row) == [Coord(col, row)]
  {
    var seg := Coord(col, row);
    assert [seg][1..] == [];
    assert Render([seg]) == [col] + row;
    TokenizeRender([seg]);
  }

  /** A line holding one in-bounds token, after at least one transform. */
  lemma ApplyLineToken(ops: seq<Op>, n: int, col: char, row: string)
    requires n <= 26 && IsLetter(col) && |row| >= 1 && AllDigits(row)
    requires InBounds(n, CellOf(col, row)) && ops != []
    ensures ApplyLine(ops, n, [col] + row) == Text(CoordOf(ApplyCell(ops, n, CellOf(col, row))))
  {
    var seg := Coord(col, row);
    SingleToken(col, row);
    ApplyLineTokens(ops, n, [col] + row);
    ApplySegInBounds(ops, n, seg);
    var out := ApplySegs(ops, n, [seg]);
    assert out[1..] == [];
  }

  /** A token equals its normal form exactly when it is canonical. */
  lemma NormalFormIff(col: char, row: string)
    requires IsLetter(col) && |row| >= 1 && AllDigits(row)
    ensures [Lower(col)] + Show(Parse(row)) == [col] + row <==> IsLower(col) && Canonical(row)
  {
    var out := [Lower(col)] + Show(Parse(row));
    if out == [col] + row {
      assert out[1..] == row;
    }
    if IsLower(col) && Canonical(row) {
      ShowParse(row);
    }
  }

  /** Why the canonical-form condition is needed: four rotations of an
      in-bounds token give its letter lowercased and its row without
      leading zeros, which is the token itself exactly when it was
      canonical (so "A1" comes back as "a1" and "a01" as "a1"). */
  lemma RotateLineNormalizes(n: int, col: char, row: string)
    requires n <= 26 && IsLetter(col) && |row| >= 1 && AllDigits(row)
    requires InBounds(n, CellOf(col, row))
    ensures RotateLine(n, RotateLine(n, RotateLine(n, RotateLine(n, [col] + row)))) == [Lower(col)] + Show(Parse(row))
    ensures RotateLine(n, RotateLine(n, RotateLine(n, RotateLine(n, [col] + row)))) == [col] + row
        <==> IsLower(col) && Canonical(row)
  {
    FourRotationsToken(n, col, row);
    NormalFormIff(col, row);
  }

  lemma FourRotationsToken(n: int, col: char, row: string)
    requires n <= 26 && IsLetter(col) && |row| >= 1 && AllDigits(row)
    requires InBounds(n, CellOf(col, row))
    ensures RotateLine(n, RotateLine(n, RotateLine(n, RotateLine(n, [col] + row)))) == [Lower(col)] + Show(Parse(row))
  {
    var ops := [Rotate, Rotate, Rotate, Rotate];
    var cell := CellOf(col, row);
    ApplyLineToken(ops, n, col, row);
    FourRotationsCell(n, cell);
    ApplyRotations(n, [col] + row);
    TokenText(col, row);
  }

  /** The text written for a token's own cell. */
  lemma TokenText(col: char, row: string)
    requires IsLetter(col) && |row| >= 1 && AllDigits(row) && Parse(row) >= 1
    ensures Text(CoordOf(CellOf(col, row))) == [Lower(col)] + Show(Parse(row))
  {
  }

  /** Text without letters holds no coordinate token. */
  lemma {:induction false} NoLetterNoToken(s: string)
    requires forall i :: 0 <= i < |s| ==> !IsLetter(s[i])
    ensures forall i :: 0 <= i < |Tokenize(s)| ==> Tokenize(s)[i].Lit?
    decreases |s|
  {
    if s != [] {
      NoLetterNoToken(s[1..]);
    }
  }

  /** Text with neither letters nor direction symbols is left alone. */
  lemma InertText(op: Op, n: int, s: string)
    requires n <= MaxSize
    requires forall i :: 0 <= i < |s| ==> !IsLetter(s[i]) && !IsDir(s[i])
    ensures TransformLine(op, n, s) == s
  {
  }

  /** Why the 26-column bound is needed: on a wider board a token on row
      27 or beyond is rotated into a column that `chr` writes as a
      non-letter, after which no rotation touches it again, so four
      rotations do not give the line back. */
  lemma WideBoardBreaksOrder4(n: int, col: char, row: string)
    requires 26 < n <= MaxSize && IsLetter(col) && |row| >= 1 && AllDigits(row)
    requires InBounds(n, CellOf(col, row)) && Parse(row) > 26
    ensures var t := RotateLine(n, [col] + row);
            && RotateLine(n, t) == t
            && RotateLine(n, RotateLine(n, RotateLine(n, RotateLine(n, [col] + row)))) != [col] + row
  {
    var t := Text(MapCoord(Rotate, n, col, row));
    SingleSegment(Rotate, n, col, row);
    WideRotationInert(n, col, row);
    InertText(Rotate, n, t);
    assert t[0] != ([col] + row)[0];
  }

  /** On a wide board, the rotation of a token on row 27 or beyond is
      text with neither letters nor direction symbols. */
  lemma WideRotationInert(n: int, col: char, row: string)
    requires 26 < n <= MaxSize && IsLetter(col) && |row| >= 1 && AllDigits(row)
    requires InBounds(n, CellOf(col, row)) && Parse(row) > 26
    ensures var t := Text(MapCoord(Rotate, n, col, row));
            && |t| >= 1 && !IsLetter(t[0])
            && forall i :: 0 <= i < |t| ==> !IsLetter(t[i]) && !IsDir(t[i])
  {
    var m := MapCoord(Rotate, n, col, row);
    var t := Text(m);
    forall i | 0 <= i < |t| ensures !IsLetter(t[i]) && !IsDir(t[i]) {
      if i > 0 {
        assert t[i] == m.row[i - 1];
      }
    }
  }

  /** A line holding one token is transformed as that token's match. */
  lemma SingleSegment(op: Op, n: int, col: char, row: string)
    requires n <= MaxSize && IsLetter(col) && |row| >= 1 && AllDigits(row)
    ensures TransformLine(op, n, [col] + row) == Text(MapCoord(op, n, col, row))
  {
    var seg := Coord(col, row);
    SingleToken(col, row);
    var r := MapSegs(op, n, [seg]);
    assert r == [MapCoord(op, n, col, row)];
    assert r[1..] == [];
  }
}
