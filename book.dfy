/** The opening book of the engine: which stored lines may continue a
    game, which of their next moves fit on the board, and how a book
    file's lines are read into move sequences. */
module OpeningBook {

  datatype Option<T> = None | Some(value: T)

  datatype Direction = North | South | East | West

  /** The piece a placement puts down; the bounds check never looks at it. */
  datatype Stone = Flat | Standing | Capstone

  /** A move: a placement on a square, or a spread from a square in one
      direction, dropping one stack per entry of `drops`. */
  datatype GameMove =
    | Place(x: nat, y: nat, stone: Stone)
    | Spread(x: nat, y: nat, direction: Direction, drops: seq<nat>)

  /** A square (possibly off the board) as signed coordinates. */
  datatype Square = Square(x: int, y: int)

  predicate OnBoard(size: nat, q: Square) {
    0 <= q.x < size && 0 <= q.y < size
  }

  /** The square `k` steps from the move's origin along its direction;
      North is towards higher `y`, East towards higher `x`. */
  function Along(m: GameMove, k: nat): (q: Square)
    ensures m.Place? ==> q == Square(m.x, m.y)
    ensures k == 0 ==> q == Square(m.x, m.y)
  {
    match m
    case Place(x, y, _) => Square(x, y)
    case Spread(x, y, d, _) =>
      match d
      case North => Square(x, y + k)
      case South => Square(x, y - k)
      case East => Square(x + k, y)
      case West => Square(x - k, y)
  }

  /** `Book::is_valid`: the origin must be on the board and, for a spread,
      so must the square as many steps away as there are drops. */
  function IsValid(m: GameMove, size: nat): (r: bool)
    ensures m.Place? ==> (r <==> m.x < size && m.y < size)
    ensures m.Spread? && (m.x >= size || m.y >= size) ==> !r
    ensures r <==> OnBoard(size, Along(m, 0)) && (m.Spread? ==> OnBoard(size, Along(m, |m.drops|)))
  {
    match m
    case Place(x, y, _) => x < size && y < size
    case Spread(x, y, direction, drops) =>
      if x >= size || y >= size then false
      else
        var distance := |drops|;
        match direction
        case North => y + distance < size
        case South => y >= distance
        case East => x + distance < size
        case West => x >= distance
  }

  /** A valid move stays on the board all along its path: every square a
      spread passes over or drops on is on the board, and conversely. */
  lemma IsValidPath(m: GameMove, size: nat)
    ensures IsValid(m, size) <==>
              forall k :: 0 <= k <= (if m.Spread? then |m.drops| else 0) ==> OnBoard(size, Along(m, k))
  {
    if !IsValid(m, size) {
      var last := if m.Spread? then |m.drops| else 0;
      if !OnBoard(size, Along(m, 0)) {
        assert !OnBoard(size, Along(m, 0));
      } else {
        assert !OnBoard(size, Along(m, last));
      }
    }
  }

  /** A move valid on a board stays valid on every larger board. */
  lemma IsValidMonotone(m: GameMove, size: nat, larger: nat)
    requires size <= larger && IsValid(m, size)
    ensures IsValid(m, larger)
  {
  }

  /** `line.starts_with(history)` with `line.len() > history.len()`: the
      line is longer and agrees with the history move by move. */
  function Extends(line: seq<GameMove>, history: seq<GameMove>): (r: bool)
    ensures r <==> |line| > |history| && forall i :: 0 <= i < |history| ==> line[i] == history[i]
  {
    |line| > |history| && line[..|history|] == history
  }

  /** A stored line offers its next move: it extends the history and the
      move after the history has its whole path on the board. */
  function Contributes(line: seq<GameMove>, history: seq<GameMove>, size: nat): (r: bool)
    ensures r ==> |line| > |history|
    ensures r <==> Extends(line, history) && var m := line[|history|];
                   OnBoard(size, Along(m, 0)) && (m.Spread? ==> OnBoard(size, Along(m, |m.drops|)))
  {
    Extends(line, history) && IsValid(line[|history|], size)
  }

  /** `m` is the next move of some contributing line of the book. */
  ghost predicate Offered(lines: seq<seq<GameMove>>, history: seq<GameMove>, size: nat, m: GameMove) {
    exists i :: 0 <= i < |lines| && Contributes(lines[i], history, size) && lines[i][|history|] == m
  }

  /** The `filter_map`/`collect` of `get_move`: the next move of every
      contributing line, in book order. */
  function Candidates(lines: seq<seq<GameMove>>, history: seq<GameMove>, size: nat): (r: seq<GameMove>)
    ensures |r| <= |lines|
    ensures forall j :: 0 <= j < |r| ==> IsValid(r[j], size)
    ensures forall j :: 0 <= j < |r| ==> Offered(lines, history, size, r[j])
    ensures forall i :: 0 <= i < |lines| && Contributes(lines[i], history, size) ==> lines[i][|history|] in r
    decreases |lines|
  {
    if lines == [] then []
    else
      var rest := Candidates(lines[1..], history, size);
      var line := lines[0];
      if Contributes(line, history, size) then [line[|history|]] + rest else rest
  }

  /** The candidates of two books laid end to end. */
  lemma {:induction false} CandidatesAppend(a: seq<seq<GameMove>>, b: seq<seq<GameMove>>, history: seq<GameMove>, size: nat)
    ensures Candidates(a + b, history, size) == Candidates(a, history, size) + Candidates(b, history, size)
    decreases |a|
  {
    if a == [] {
      assert a + b == b;
    } else {
      assert (a + b)[0] == a[0];
      assert (a + b)[1..] == a[1..] + b;
      CandidatesAppend(a[1..], b, history, size);
    }
  }

  /** Lines no longer than the history never offer a move: adding them to
      a book changes no candidate. */
  lemma {:induction false} ShortLinesIgnored(lines: seq<seq<GameMove>>, short: seq<seq<GameMove>>, history: seq<GameMove>, size: nat)
    requires forall i :: 0 <= i < |short| ==> |short[i]| <= |history|
    ensures Candidates(lines + short, history, size) == Candidates(lines, history, size)
    ensures Candidates(short + lines, history, size) == Candidates(lines, history, size)
    decreases |short|
  {
    CandidatesAppend(lines, short, history, size);
    CandidatesAppend(short, lines, history, size);
    NoCandidates(short, history, size);
  }

  lemma {:induction false} NoCandidates(short: seq<seq<GameMove>>, history: seq<GameMove>, size: nat)
    requires forall i :: 0 <= i < |short| ==> |short[i]| <= |history|
    ensures Candidates(short, history, size) == []
    decreases |short|
  {
    if short != [] {
      NoCandidates(short[1..], history, size);
    }
  }

  /** The board size acts only through `is_valid`: every candidate on a
      board is still a candidate on a larger one. */
  lemma CandidatesMonotone(lines: seq<seq<GameMove>>, history: seq<GameMove>, size: nat, larger: nat)
    requires size <= larger
    ensures forall m :: m in Candidates(lines, history, size) ==> m in Candidates(lines, history, larger)
  {
    forall m | m in Candidates(lines, history, size)
      ensures m in Candidates(lines, history, larger)
    {
      var j :| 0 <= j < |Candidates(lines, history, size)| && Candidates(lines, history, size)[j] == m;
      var i :| 0 <= i < |lines| && Contributes(lines[i], history, size) && lines[i][|history|] == m;
      IsValidMonotone(m, size, larger);
    }
  }

  /** A loaded book: one sequence of moves per kept line of the file. */
  datatype Book = Book(lines: seq<seq<GameMove>>)
  {
    /** `Book::get_move`. The random choice among the candidates is the
        parameter `pick`, read as an index modulo their number. */
    function GetMove(history: seq<GameMove>, size: nat, pick: nat): (r: Option<GameMove>)
      ensures r.None? <==> forall i :: 0 <= i < |lines| ==> !Contributes(lines[i], history, size)
      ensures r.Some? ==> IsValid(r.value, size)
      ensures r.Some? ==> Offered(lines, history, size, r.value)
    {
      var matching := Candidates(lines, history, size);
      if matching == [] then
        None
      else
        Some(matching[pick % |matching|])
    }

    /** Every contributing line's next move is one that `get_move` can
        return: some choice picks it. */
    lemma EveryCandidateReachable(history: seq<GameMove>, size: nat, i: nat)
      requires i < |lines| && Contributes(lines[i], history, size)
      ensures exists pick: nat :: GetMove(history, size, pick) == Some(lines[i][|history|])
    {
      var matching := Candidates(lines, history, size);
      var m := lines[i][|history|];
      var j :| 0 <= j < |matching| && matching[j] == m;
      PickAt(history, size, j);
    }

    /** A choice below the number of candidates picks that candidate. */
    lemma PickAt(history: seq<GameMove>, size: nat, j: nat)
      requires j < |Candidates(lines, history, size)|
      ensures GetMove(history, size, j) == Some(Candidates(lines, history, size)[j])
    {
      var matching := Candidates(lines, history, size);
      assert j % |matching| == j;
    }
  }

  /** The moves the book tests use, as `from_ptn` reads them. */
  const A1: GameMove := Place(0, 0, Flat)
  const B1: GameMove := Place(1, 0, Flat)
  const C1: GameMove := Place(2, 0, Flat)
  const F6: GameMove := Place(5, 5, Flat)

  /** After `a1`, a book of `a1 b1` and `a1 c1` answers `b1` or `c1` on a
      5x5 board, whatever the choice. */
  lemma SelectionExample(pick: nat)
    ensures var r := Book([[A1, B1], [A1, C1]]).GetMove([A1], 5, pick);
            r == Some(B1) || r == Some(C1)
  {
    var lines := [[A1, B1], [A1, C1]];
    assert [A1, B1][..1] == [A1] && [A1, C1][..1] == [A1];
    assert Candidates(lines[1..], [A1], 5) == [C1];
  }

  /** After `a1`, the line `a1 f6` offers nothing on a 5x5 board and
      offers `f6` on a 6x6 board. */
  lemma InvalidMoveExample(pick: nat)
    ensures Book([[A1, F6]]).GetMove([A1], 5, pick) == None
    ensures Book([[A1, F6]]).GetMove([A1], 6, pick) == Some(F6)
  {
    assert [A1, F6][..1] == [A1];
  }

  /** `char::is_whitespace`: the Unicode White_Space property. */
  predicate IsWhiteSpace(c: char) {
    var k := c as int;
    || 0x09 <= k <= 0x0D || k == 0x20 || k == 0x85 || k == 0xA0 || k == 0x1680
    || 0x2000 <= k <= 0x200A || k == 0x2028 || k == 0x2029 || k == 0x202F || k == 0x205F || k == 0x3000
  }

  /** `str::trim_start`: leading whitespace removed. */
  function TrimStart(s: string): (r: string)
    ensures |r| <= |s| && r == s[|s| - |r|..]
    ensures forall i :: 0 <= i < |s| - |r| ==> IsWhiteSpace(s[i])
    ensures r != [] ==> !IsWhiteSpace(r[0])
    decreases |s|
  {
    if s != [] && IsWhiteSpace(s[0]) then TrimStart(s[1..]) else s
  }

  /** `str::trim_end`: trailing whitespace removed. */
  function TrimEnd(s: string): (r: string)
    ensures |r| <= |s| && r == s[..|r|]
    ensures forall i :: |r| <= i < |s| ==> IsWhiteSpace(s[i])
    ensures r != [] ==> !IsWhiteSpace(r[|r| - 1])
    decreases |s|
  {
    if s != [] && IsWhiteSpace(s[|s| - 1]) then TrimEnd(s[..|s| - 1]) else s
  }

  /** `str::trim`: empty exactly when the line is whitespace throughout. */
  function Trim(s: string): (r: string)
    ensures |r| <= |s|
    ensures r == [] <==> forall i :: 0 <= i < |s| ==> IsWhiteSpace(s[i])
    ensures r != [] ==> !IsWhiteSpace(r[0]) && !IsWhiteSpace(r[|r| - 1])
  {
    TrimEnd(TrimStart(s))
  }

  /** A line `load` skips: whitespace throughout. */
  predicate IsBlank(line: string) {
    forall i :: 0 <= i < |line| ==> IsWhiteSpace(line[i])
  }

  /** `line.trim().is_empty()` holds exactly for the lines `IsBlank` accepts. */
  lemma TrimEmptyIffBlank(line: string)
    ensures Trim(line) == [] <==> IsBlank(line)
  {
  }

  /** The separators of `split_ascii_whitespace`: space, tab, line feed,
      form feed and carriage return. */
  predicate IsAsciiWhitespace(c: char) {
    c == ' ' || c == '\t' || c == '\n' || c == '\U{0C}' || c == '\r'
  }

  predicate IsWord(w: string) {
    w != [] && forall i :: 0 <= i < |w| ==> !IsAsciiWhitespace(w[i])
  }

  /** The end of the word starting at `i`: the next separator or the end. */
  function WordEnd(s: string, i: nat): (k: nat)
    requires i <= |s|
    ensures i <= k <= |s|
    ensures forall j :: i <= j < k ==> !IsAsciiWhitespace(s[j])
    ensures k < |s| ==> IsAsciiWhitespace(s[k])
    decreases |s| - i
  {
    if i == |s| || IsAsciiWhitespace(s[i]) then i else WordEnd(s, i + 1)
  }

  /** `split_ascii_whitespace`: the maximal runs of non-separators. */
  function Words(s: string): (ws: seq<string>)
    ensures forall j :: 0 <= j < |ws| ==> IsWord(ws[j])
    decreases |s|
  {
    if s == [] then []
    else if IsAsciiWhitespace(s[0]) then Words(s[1..])
    else
      var k := WordEnd(s, 0);
      [s[..k]] + Words(s[k..])
  }

  /** The words joined by single spaces. */
  function Unwords(ws: seq<string>): string {
    if ws == [] then [] else if |ws| == 1 then ws[0] else ws[0] + " " + Unwords(ws[1..])
  }

  /** `WordEnd` finds the first separator at or after `i`. */
  lemma {:induction false} WordEndAt(s: string, i: nat, k: nat)
    requires i <= k <= |s|
    requires forall j :: i <= j < k ==> !IsAsciiWhitespace(s[j])
    requires k < |s| ==> IsAsciiWhitespace(s[k])
    ensures WordEnd(s, i) == k
    decreases k - i
  {
    if i < k {
      WordEndAt(s, i + 1, k);
    }
  }

  lemma WordEndOfWord(w: string, rest: string)
    requires IsWord(w) && (rest != [] ==> IsAsciiWhitespace(rest[0]))
    ensures WordEnd(w + rest, 0) == |w|
  {
    var s := w + rest;
    forall j | 0 <= j < |w|
      ensures !IsAsciiWhitespace(s[j])
    {
      assert s[j] == w[j];
    }
    if |w| < |s| {
      assert s[|w|] == rest[0];
    }
    WordEndAt(s, 0, |w|);
  }

  /** Splitting undoes joining: words joined by spaces split back into the
      same words. */
  lemma {:induction false} WordsUnwords(ws: seq<string>)
    requires forall j :: 0 <= j < |ws| ==> IsWord(ws[j])
    ensures Words(Unwords(ws)) == ws
    decreases |ws|
  {
    if |ws| == 1 {
      var w := ws[0];
      WordEndOfWord(w, []);
      assert w + [] == w;
      assert w[..|w|] == w && w[|w|..] == [];
    } else if |ws| > 1 {
      var w := ws[0];
      var tail := Unwords(ws[1..]);
      var s := w + " " + tail;
      assert s == w + (" " + tail);
      WordEndOfWord(w, " " + tail);
      assert s[..|w|] == w;
      assert s[|w|..] == " " + tail;
      assert (" " + tail)[1..] == tail;
      WordsUnwords(ws[1..]);
    }
  }

  predicate AllSeparators(g: string) {
    forall i :: 0 <= i < |g| ==> IsAsciiWhitespace(g[i])
  }

  /** Words with runs of separators around them: `gaps[0]` before the
      first word, `gaps[j]` between words `j - 1` and `j`, and the last
      gap after the last word. */
  function Layout(gaps: seq<string>, ws: seq<string>): (s: string)
    requires |gaps| == |ws| + 1
    decreases |ws|
  {
    if ws == [] then gaps[0] else gaps[0] + ws[0] + Layout(gaps[1..], ws[1..])
  }

  /** A way of reading a line as words: the words hold no separator, the
      gaps hold nothing else, and words next to each other are parted by
      at least one separator. */
  predicate Splitting(gaps: seq<string>, ws: seq<string>) {
    && |gaps| == |ws| + 1
    && (forall j :: 0 <= j < |ws| ==> IsWord(ws[j]))
    && (forall j :: 0 <= j < |gaps| ==> AllSeparators(gaps[j]))
    && (forall j :: 0 < j < |ws| ==> gaps[j] != [])
  }

  /** Leading separators add no word. */
  lemma {:induction false} WordsSkip(g: string, t: string)
    requires AllSeparators(g)
    ensures Words(g + t) == Words(t)
    decreases |g|
  {
    if g != [] {
      assert (g + t)[1..] == g[1..] + t;
      WordsSkip(g[1..], t);
    } else {
      assert g + t == t;
    }
  }

  /** A layout starts with its first gap or, when that is empty, with its
      first word. */
  lemma LayoutHead(gaps: seq<string>, ws: seq<string>)
    requires |gaps| == |ws| + 1 && ws != [] && ws[0] != []
    ensures Layout(gaps, ws) != []
    ensures Layout(gaps, ws)[0] == if gaps[0] == [] then ws[0][0] else gaps[0][0]
  {
    assert Layout(gaps, ws) == gaps[0] + (ws[0] + Layout(gaps[1..], ws[1..]));
  }

  /** `Words` reads every line this way: the line is its words laid out
      with separator runs, so the words are the line's maximal runs of
      non-separators and their concatenation is the line without its
      separators. */
  lemma {:induction false} WordsSplit(s: string) returns (gaps: seq<string>)
    ensures Splitting(gaps, Words(s)) && Layout(gaps, Words(s)) == s
    decreases |s|
  {
    if s == [] {
      gaps := [[]];
    } else if IsAsciiWhitespace(s[0]) {
      var g := WordsSplit(s[1..]);
      gaps := SplitAfterSeparator(s, g);
    } else {
      var k := WordEnd(s, 0);
      var g := WordsSplit(s[k..]);
      gaps := SplitAfterWord(s, k, g);
    }
  }

  /** A separator in front of a line joins the line's first gap. */
  lemma SplitAfterSeparator(s: string, g: seq<string>) returns (gaps: seq<string>)
    requires s != [] && IsAsciiWhitespace(s[0])
    requires Splitting(g, Words(s[1..])) && Layout(g, Words(s[1..])) == s[1..]
    ensures Splitting(gaps, Words(s)) && Layout(gaps, Words(s)) == s
  {
    var ws := Words(s);
    assert ws == Words(s[1..]);
    var first := [s[0]] + g[0];
    gaps := [first] + g[1..];
    assert gaps[1..] == g[1..];
    assert AllSeparators(first) by {
      forall i | 0 < i < |first| ensures IsAsciiWhitespace(first[i]) {
        assert first[i] == g[0][i - 1];
      }
    }
    forall j | 0 < j < |gaps| ensures gaps[j] == g[j] {
    }
    assert Splitting(gaps, ws);
    if ws == [] {
      assert Layout(gaps, ws) == first && Layout(g, ws) == g[0];
    } else {
      var rest := Layout(g[1..], ws[1..]);
      assert Layout(g, ws) == g[0] + ws[0] + rest;
      assert Layout(gaps, ws) == first + ws[0] + rest;
      assert first + ws[0] + rest == [s[0]] + (g[0] + ws[0] + rest);
    }
    assert s == [s[0]] + s[1..];
  }

  /** A word in front of the rest of a line comes after an empty gap. */
  lemma SplitAfterWord(s: string, k: nat, g: seq<string>) returns (gaps: seq<string>)
    requires s != [] && !IsAsciiWhitespace(s[0]) && k == WordEnd(s, 0)
    requires Splitting(g, Words(s[k..])) && Layout(g, Words(s[k..])) == s[k..]
    ensures Splitting(gaps, Words(s)) && Layout(gaps, Words(s)) == s
  {
    var w := s[..k];
    var rest := Words(s[k..]);
    assert Words(s) == [w] + rest;
    if rest != [] {
      // the text after a word starts with a separator, so its first gap is not empty
      LayoutHead(g, rest);
    }
    gaps := ConsWord(w, g, rest);
    assert s == w + s[k..];
  }

  /** A word put in front of a splitting, with an empty gap before it. */
  lemma ConsWord(w: string, g: seq<string>, ws: seq<string>) returns (gaps: seq<string>)
    requires IsWord(w) && Splitting(g, ws) && (ws != [] ==> g[0] != [])
    ensures gaps == [[]] + g
    ensures Splitting(gaps, [w] + ws) && Layout(gaps, [w] + ws) == w + Layout(g, ws)
  {
    gaps := [[]] + g;
    var vs := [w] + ws;
    assert gaps[1..] == g && vs[1..] == ws;
    forall j | 0 < j < |gaps| ensures gaps[j] == g[j - 1] {
    }
    forall j | 0 < j < |vs| ensures vs[j] == ws[j - 1] {
    }
  }

  /** No other reading is possible: a line laid out as words and
      separator runs splits into exactly those words. */
  lemma {:induction false} WordsUnique(gaps: seq<string>, ws: seq<string>)
    requires Splitting(gaps, ws)
    ensures Words(Layout(gaps, ws)) == ws
    decreases |ws|
  {
    if ws == [] {
      WordsSkip(gaps[0], []);
      assert gaps[0] + [] == gaps[0];
    } else {
      var w := ws[0];
      var rest := Layout(gaps[1..], ws[1..]);
      assert Splitting(gaps[1..], ws[1..]) by {
        forall j | 0 < j < |ws[1..]| ensures gaps[1..][j] != [] {
          assert gaps[1..][j] == gaps[j + 1];
        }
      }
      if |ws| > 1 {
        assert rest == gaps[1] + ws[1] + Layout(gaps[2..], ws[2..]);
        assert gaps[1] != [] && rest[0] == gaps[1][0];
      } else {
        assert rest == gaps[1];
      }
      WordsSkip(gaps[0], w + rest);
      WordEndOfWord(w, rest);
      assert (w + rest)[..|w|] == w && (w + rest)[|w|..] == rest;
      WordsUnique(gaps[1..], ws[1..]);
      assert Layout(gaps, ws) == gaps[0] + (w + rest);
    }
  }

  /** The moves of one line: parse its words in order and stop at the
      first word that does not parse. */
  function ParsedPrefix(parse: string -> Option<GameMove>, ws: seq<string>): (ms: seq<GameMove>)
    ensures |ms| <= |ws|
    ensures forall i :: 0 <= i < |ms| ==> parse(ws[i]) == Some(ms[i])
    ensures |ms| < |ws| ==> parse(ws[|ms|]).None?
    decreases |ws|
  {
    if ws == [] then []
    else
      match parse(ws[0])
      case None => []
      case Some(m) => [m] + ParsedPrefix(parse, ws[1..])
  }

  /** The prefix is the only one that parses throughout and stops at the
      first failure or at the end. */
  lemma {:induction false} ParsedPrefixUnique(parse: string -> Option<GameMove>, ws: seq<string>, ms: seq<GameMove>)
    requires |ms| <= |ws|
    requires forall i :: 0 <= i < |ms| ==> parse(ws[i]) == Some(ms[i])
    requires |ms| < |ws| ==> parse(ws[|ms|]).None?
    ensures ms == ParsedPrefix(parse, ws)
    decreases |ws|
  {
    if ws != [] && ms != [] {
      ParsedPrefixUnique(parse, ws[1..], ms[1..]);
      assert ms == [ms[0]] + ms[1..];
    }
  }

  /** What `load` keeps of one line: nothing for a blank line or a line
      whose first word does not parse, else its parsed prefix. */
  function LoadLine(parse: string -> Option<GameMove>, line: string): (r: seq<seq<GameMove>>)
    ensures |r| <= 1
    ensures r != [] ==> !IsBlank(line) && r[0] != [] && r[0] == ParsedPrefix(parse, Words(line))
  {
    if IsBlank(line) then []
    else
      var moves := ParsedPrefix(parse, Words(line));
      if moves == [] then [] else [moves]
  }

  /** The lines of a book file, as `load` stores them. */
  function LoadLines(parse: string -> Option<GameMove>, text: seq<string>): (r: seq<seq<GameMove>>)
    ensures |r| <= |text|
    ensures forall j :: 0 <= j < |r| ==> r[j] != []
    decreases |text|
  {
    if text == [] then []
    else LoadLines(parse, text[..|text| - 1]) + LoadLine(parse, text[|text| - 1])
  }

  /** Loading two files' lines laid end to end. */
  lemma {:induction false} LoadLinesAppend(parse: string -> Option<GameMove>, a: seq<string>, b: seq<string>)
    ensures LoadLines(parse, a + b) == LoadLines(parse, a) + LoadLines(parse, b)
    decreases |b|
  {
    if b != [] {
      var init := b[..|b| - 1];
      assert (a + b)[..|a + b| - 1] == a + init;
      assert (a + b)[|a + b| - 1] == b[|b| - 1];
      LoadLinesAppend(parse, a, init);
      calc {
        LoadLines(parse, a + b);
        LoadLines(parse, a + init) + LoadLine(parse, b[|b| - 1]);
        LoadLines(parse, a) + LoadLines(parse, init) + LoadLine(parse, b[|b| - 1]);
        LoadLines(parse, a) + LoadLines(parse, b);
      }
    } else {
      assert a + b == a;
    }
  }

  /** `moves` is what parsing some non-blank line of the file gives. */
  ghost predicate FromSomeLine(parse: string -> Option<GameMove>, text: seq<string>, moves: seq<GameMove>) {
    exists i :: 0 <= i < |text| && !IsBlank(text[i]) && moves == ParsedPrefix(parse, Words(text[i]))
  }

  /** Every stored line is the parsed prefix of a non-blank line of the
      file, and every non-blank line whose first word parses is stored. */
  lemma LoadLinesFaithful(parse: string -> Option<GameMove>, text: seq<string>)
    ensures forall j :: 0 <= j < |LoadLines(parse, text)| ==> FromSomeLine(parse, text, LoadLines(parse, text)[j])
    ensures forall i :: 0 <= i < |text| && !IsBlank(text[i]) && ParsedPrefix(parse, Words(text[i])) != [] ==>
              ParsedPrefix(parse, Words(text[i])) in LoadLines(parse, text)
  {
    StoredFromLines(parse, text);
    LinesStored(parse, text);
  }

  lemma {:induction false} StoredFromLines(parse: string -> Option<GameMove>, text: seq<string>)
    ensures forall j :: 0 <= j < |LoadLines(parse, text)| ==> FromSomeLine(parse, text, LoadLines(parse, text)[j])
    decreases |text|
  {
    if text != [] {
      var init := text[..|text| - 1];
      var last := text[|text| - 1];
      StoredFromLines(parse, init);
      var r0 := LoadLines(parse, init);
      var r := LoadLines(parse, text);
      assert r == r0 + LoadLine(parse, last);
      forall j | 0 <= j < |r|
        ensures FromSomeLine(parse, text, r[j])
      {
        if j < |r0| {
          assert FromSomeLine(parse, init, r0[j]);
          var i :| 0 <= i < |init| && !IsBlank(init[i]) && r0[j] == ParsedPrefix(parse, Words(init[i]));
          assert text[i] == init[i] && r[j] == r0[j];
        } else {
          assert r[j] == LoadLine(parse, last)[0];
          var i := |text| - 1;
          assert text[i] == last && !IsBlank(text[i]) && r[j] == ParsedPrefix(parse, Words(text[i]));
        }
      }
    }
  }

  lemma {:induction false} LinesStored(parse: string -> Option<GameMove>, text: seq<string>)
    ensures forall i :: 0 <= i < |text| && !IsBlank(text[i]) && ParsedPrefix(parse, Words(text[i])) != [] ==>
              ParsedPrefix(parse, Words(text[i])) in LoadLines(parse, text)
    decreases |text|
  {
    if text != [] {
      var init := text[..|text| - 1];
      var last := text[|text| - 1];
      LinesStored(parse, init);
      var r := LoadLines(parse, text);
      assert r == LoadLines(parse, init) + LoadLine(parse, last);
      forall i | 0 <= i < |text| && !IsBlank(text[i]) && ParsedPrefix(parse, Words(text[i])) != []
        ensures ParsedPrefix(parse, Words(text[i])) in r
      {
        if i < |init| {
          assert text[i] == init[i];
        } else {
          assert text[i] == last && !IsBlank(last);
          assert LoadLine(parse, last) == [ParsedPrefix(parse, Words(last))];
        }
      }
    }
  }

  /** `Book::load` after the file has been read into lines: skip blank
      lines, parse each line's words until the first one that fails, and
      keep the lines that produced at least one move. */
  method Load(parse: string -> Option<GameMove>, text: seq<string>) returns (book: Book)
    ensures book.lines == LoadLines(parse, text)
    ensures forall j :: 0 <= j < |book.lines| ==> book.lines[j] != []
  {
    var lines := [];
    for i := 0 to |text|
      invariant lines == LoadLines(parse, text[..i])
    {
      assert text[..i + 1][..i] == text[..i];
      var line := text[i];
      assert LoadLines(parse, text[..i + 1]) == LoadLines(parse, text[..i]) + LoadLine(parse, line);
      if IsBlank(line) {
        continue;
      }
      var moves := ParseMoves(parse, Words(line));
      if moves != [] {
        lines := lines + [moves];
      }
    }
    assert text[..|text|] == text;
    book := Book(lines);
  }

  /** The inner loop of `Book::load`: push the move of each word in turn
      and break at the first word that does not parse. */
  method ParseMoves(parse: string -> Option<GameMove>, words: seq<string>) returns (moves: seq<GameMove>)
    ensures moves == ParsedPrefix(parse, words)
  {
    moves := [];
    var j := 0;
    while j < |words|
      invariant j <= |words| && |moves| == j
      invariant forall k :: 0 <= k < j ==> parse(words[k]) == Some(moves[k])
    {
      var parsed := parse(words[j]);
      if parsed.Some? {
        moves := moves + [parsed.value];
      } else {
        // the first word that does not parse ends the line
        break;
      }
      j := j + 1;
    }
    ParsedPrefixUnique(parse, words, moves);
  }
}
