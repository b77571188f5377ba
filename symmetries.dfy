/** The variant loop of `process_file`: every non-blank input line, once
    stripped, is expanded into the eight images of the board's symmetry
    group in a fixed order. */
module Symmetries {
  import opened Grid
  import opened Scan

  /** Python's `str.isspace` on one character. */
  predicate IsSpace(c: char) {
    var k := c as int;
    || k == 0x20 || 0x09 <= k <= 0x0D || 0x1C <= k <= 0x1F
    || k == 0x85 || k == 0xA0 || k == 0x1680 || 0x2000 <= k <= 0x200A
    || k == 0x2028 || k == 0x2029 || k == 0x202F || k == 0x205F || k == 0x3000
  }

  function StripLeft(s: string): (r: string)
    ensures |r| <= |s| && r == s[|s| - |r|..]
    ensures forall i :: 0 <= i < |s| - |r| ==> IsSpace(s[i])
    ensures r != [] ==> !IsSpace(r[0])
  {
    if s != [] && IsSpace(s[0]) then StripLeft(s[1..]) else s
  }

  function StripRight(s: string): (r: string)
    ensures |r| <= |s| && r == s[..|r|]
    ensures forall i :: |r| <= i < |s| ==> IsSpace(s[i])
    ensures r != [] ==> !IsSpace(r[|r| - 1])
  {
    if s != [] && IsSpace(s[|s| - 1]) then StripRight(s[..|s| - 1]) else s
  }

  /** `line.strip()`: the line without surrounding whitespace; empty
      exactly when the line is blank. */
  function Strip(s: string): (r: string)
    ensures |r| <= |s|
    ensures r == [] <==> forall i :: 0 <= i < |s| ==> IsSpace(s[i])
    ensures r != [] ==> !IsSpace(r[0]) && !IsSpace(r[|r| - 1])
  {
    StripRight(StripLeft(s))
  }

  /** `rotate_line_90` applied `k` times. */
  function RotateTimes(n: int, s: string, k: nat): string
    requires n <= MaxSize
  {
    if k == 0 then s else RotateLine(n, RotateTimes(n, s, k - 1))
  }

  /** The first `k` chained rotations of `s`, starting with `s` itself. */
  function Orbit(n: int, s: string, k: nat): (r: seq<string>)
    requires n <= MaxSize
    ensures |r| == k
    ensures forall i :: 0 <= i < k ==> r[i] == RotateTimes(n, s, i)
  {
    if k == 0 then [] else Orbit(n, s, k - 1) + [RotateTimes(n, s, k - 1)]
  }

  /** The eight variants in output order: the line and its three chained
      rotations, then the mirror of the original line and its three
      chained rotations. */
  function Variants(n: int, original: string): seq<string>
    requires n <= MaxSize
  {
    Orbit(n, original, 4) + Orbit(n, FlipLine(n, original), 4)
  }

  /** Variant `i` is the line rotated `i` times and variant `4 + i` its
      mirror rotated `i` times. */
  lemma VariantsShape(n: int, original: string)
    requires n <= MaxSize
    ensures |Variants(n, original)| == 8
    ensures forall i :: 0 <= i < 4 ==>
              && Variants(n, original)[i] == RotateTimes(n, original, i)
              && Variants(n, original)[4 + i] == RotateTimes(n, FlipLine(n, original), i)
  {
  }

  /** What `process_file` prints for a sequence of input lines. */
  function Expand(n: int, lines: seq<string>): seq<string>
    requires n <= MaxSize
    decreases |lines|
  {
    if lines == [] then []
    else
      var original := Strip(lines[|lines| - 1]);
      Expand(n, lines[..|lines| - 1]) + (if original == [] then [] else Variants(n, original))
  }

  /** The stripped non-blank lines, in input order. */
  function Kept(lines: seq<string>): (r: seq<string>)
    ensures |r| <= |lines|
    ensures forall i :: 0 <= i < |r| ==> r[i] != []
    decreases |lines|
  {
    if lines == [] then []
    else
      var original := Strip(lines[|lines| - 1]);
      Kept(lines[..|lines| - 1]) + (if original == [] then [] else [original])
  }

  /** One line is kept, stripped, exactly when it is not blank. */
  lemma KeptOne(line: string)
    ensures Kept([line]) == if Strip(line) == [] then [] else [Strip(line)]
  {
    assert [line][..0] == [];
  }

  /** The lines kept from two runs of lines laid end to end, in order. */
  lemma {:induction false} KeptAppend(a: seq<string>, b: seq<string>)
    ensures Kept(a + b) == Kept(a) + Kept(b)
    decreases |b|
  {
    if b != [] {
      var init := b[..|b| - 1];
      assert (a + b)[..|a + b| - 1] == a + init;
      assert (a + b)[|a + b| - 1] == b[|b| - 1];
      KeptAppend(a, init);
    } else {
      assert a + b == a;
    }
  }

  /** `s` is the stripped form of some non-blank line. */
  ghost predicate StrippedFromSomeLine(lines: seq<string>, s: string) {
    exists i :: 0 <= i < |lines| && Strip(lines[i]) != [] && s == Strip(lines[i])
  }

  /** Every kept line is a non-blank input line stripped, and every
      non-blank input line is kept. */
  lemma KeptFaithful(lines: seq<string>)
    ensures forall j :: 0 <= j < |Kept(lines)| ==> StrippedFromSomeLine(lines, Kept(lines)[j])
    ensures forall i :: 0 <= i < |lines| && Strip(lines[i]) != [] ==> Strip(lines[i]) in Kept(lines)
  {
    KeptFromLines(lines);
    LinesKept(lines);
  }

  lemma {:induction false} KeptFromLines(lines: seq<string>)
    ensures forall j :: 0 <= j < |Kept(lines)| ==> StrippedFromSomeLine(lines, Kept(lines)[j])
    decreases |lines|
  {
    if lines != [] {
      var init := lines[..|lines| - 1];
      var last := lines[|lines| - 1];
      KeptFromLines(init);
      var r0 := Kept(init);
      var r := Kept(lines);
      var tail := if Strip(last) == [] then [] else [Strip(last)];
      assert r == r0 + tail;
      forall j | 0 <= j < |r|
        ensures StrippedFromSomeLine(lines, r[j])
      {
        if j < |r0| {
          assert StrippedFromSomeLine(init, r0[j]);
          var i :| 0 <= i < |init| && Strip(init[i]) != [] && r0[j] == Strip(init[i]);
          assert lines[i] == init[i] && r[j] == r0[j];
        } else {
          var i := |lines| - 1;
          assert lines[i] == last && r[j] == Strip(last);
        }
      }
    }
  }

  lemma {:induction false} LinesKept(lines: seq<string>)
    ensures forall i :: 0 <= i < |lines| && Strip(lines[i]) != [] ==> Strip(lines[i]) in Kept(lines)
    decreases |lines|
  {
    if lines != [] {
      var init := lines[..|lines| - 1];
      var last := lines[|lines| - 1];
      LinesKept(init);
      var r0 := Kept(init);
      var r := Kept(lines);
      var tail := if Strip(last) == [] then [] else [Strip(last)];
      assert r == r0 + tail;
      forall i | 0 <= i < |lines| && Strip(lines[i]) != []
        ensures Strip(lines[i]) in r
      {
        if i < |init| {
          assert lines[i] == init[i];
        } else {
          assert tail == [Strip(last)];
        }
      }
    }
  }

  /** `process_file` without its I/O: the loop over the lines, the two
      chained rotation loops and the mirror in between. */
  method ProcessFile(n: int, lines: seq<string>) returns (out: seq<string>)
    requires n <= MaxSize
    ensures out == Expand(n, lines)
  {
    out := [];
    for i := 0 to |lines|
      invariant out == Expand(n, lines[..i])
    {
      assert lines[..i + 1][..i] == lines[..i];
      var original := Strip(lines[i]);
      if original == [] {
        continue;
      }
      var variations := [original];
      var current := original;
      assert variations == Orbit(n, original, 1);
      for j := 0 to 3
        invariant variations == Orbit(n, original, j + 1)
        invariant current == RotateTimes(n, original, j)
      {
        current := RotateLine(n, current);
        variations := variations + [current];
      }
      var flipped := FlipLine(n, original);
      variations := variations + [flipped];
      current := flipped;
      ghost var orbit := variations[..4];
      ghost var mirrored := [flipped];
      assert mirrored == Orbit(n, flipped, 1);
      for j := 0 to 3
        invariant variations == orbit + mirrored
        invariant mirrored == Orbit(n, flipped, j + 1)
        invariant current == RotateTimes(n, flipped, j)
      {
        current := RotateLine(n, current);
        AppendAssoc(orbit, mirrored, [current]);
        variations := variations + [current];
        mirrored := mirrored + [current];
      }
      out := out + variations;
    }
    assert lines[..|lines|] == lines;
  }

  /** The output comes in blocks of eight, one block per non-blank line, in
      input order; blank lines emit nothing. */
  lemma {:induction false} ExpandBlocks(n: int, lines: seq<string>)
    requires n <= MaxSize
    ensures |Expand(n, lines)| == 8 * |Kept(lines)|
    ensures forall j :: 0 <= j < |Kept(lines)| ==>
              Expand(n, lines)[8 * j..8 * j + 8] == Variants(n, Kept(lines)[j])
    decreases |lines|
  {
    if lines != [] {
      var init := lines[..|lines| - 1];
      ExpandBlocks(n, init);
      var original := ExpandStep(n, lines);
      if original != [] {
        AppendBlock(n, Expand(n, init), Kept(init), original);
      }
    }
  }

  /** One more block after whole blocks keeps the block structure. */
  lemma AppendBlock(n: int, e: seq<string>, k: seq<string>, x: string)
    requires n <= MaxSize
    requires |e| == 8 * |k|
    requires forall j :: 0 <= j < |k| ==> e[8 * j..8 * j + 8] == Variants(n, k[j])
    ensures forall j :: 0 <= j < |k| + 1 ==> (e + Variants(n, x))[8 * j..8 * j + 8] == Variants(n, (k + [x])[j])
  {
    var v := Variants(n, x);
    forall j | 0 <= j < |k| + 1
      ensures (e + v)[8 * j..8 * j + 8] == Variants(n, (k + [x])[j])
    {
      if j < |k| {
        assert (k + [x])[j] == k[j];
        SliceOfAppend(e, v, 8 * j, 8 * j + 8);
      } else {
        assert (k + [x])[j] == x;
        SliceOfAppend(e, v, |e|, |e| + 8);
      }
    }
  }

  /** One step of `Expand` and `Kept` on the last line. */
  lemma ExpandStep(n: int, lines: seq<string>) returns (original: string)
    requires n <= MaxSize && lines != []
    ensures original == Strip(lines[|lines| - 1])
    ensures original == [] ==>
              Expand(n, lines) == Expand(n, lines[..|lines| - 1]) && Kept(lines) == Kept(lines[..|lines| - 1])
    ensures original != [] ==>
              && Expand(n, lines) == Expand(n, lines[..|lines| - 1]) + Variants(n, original)
              && Kept(lines) == Kept(lines[..|lines| - 1]) + [original]
  {
    original := Strip(lines[|lines| - 1]);
  }

  lemma AppendAssoc<T>(a: seq<T>, b: seq<T>, c: seq<T>)
    ensures (a + b) + c == a + (b + c)
  {
  }

  /** A slice of `e + v` that lies inside `e`, or that is exactly `v`. */
  lemma SliceOfAppend<T>(e: seq<T>, v: seq<T>, lo: int, hi: int)
    requires 0 <= lo <= hi <= |e + v|
    ensures hi <= |e| ==> (e + v)[lo..hi] == e[lo..hi]
    ensures lo == |e| && hi == |e + v| ==> (e + v)[lo..hi] == v
  {
  }

  /** Four rotations of the first variant, written out. */
  lemma RotateTimesUnfold(n: int, s: string)
    requires n <= MaxSize
    ensures RotateTimes(n, s, 1) == RotateLine(n, s)
    ensures RotateTimes(n, s, 2) == RotateLine(n, RotateLine(n, s))
    ensures RotateTimes(n, s, 3) == RotateLine(n, RotateLine(n, RotateLine(n, s)))
  {
  }

  /** The second block is the mirror image of the first: variants 6, 7
      and 8 are the mirrors of variants 4, 3 and 2, on every line. */
  lemma {:induction false} VariantsMirror(n: int, s: string)
    requires n <= 26
    ensures var vs := Variants(n, s);
            && vs[5] == FlipLine(n, vs[3])
            && vs[6] == FlipLine(n, vs[2])
            && vs[7] == FlipLine(n, vs[1])
  {
    RotateTimesUnfold(n, s);
    var x := FlipLine(n, s);
    RotateTimesUnfold(n, x);
    TransformCanonical(Flip, n, s);
    var r1 := RotateLine(n, s);
    var r2 := RotateLine(n, r1);
    // the mirror of one rotation is three rotations of the mirror
    FlipRotateLine(n, s);
    FlipRotateLine(n, r1);
    FlipRotateLine(n, r2);
    var x3 := RotateLine(n, RotateLine(n, RotateLine(n, x)));
    // six rotations of x are two
    RotateLineOrder4(n, x);
    assert FlipLine(n, r2) == RotateLine(n, RotateLine(n, RotateLine(n, x3)));
    // nine rotations of x are one
    TransformCanonical(Rotate, n, x);
    RotateLineOrder4(n, RotateLine(n, x));
  }

  /** The variants close up: one more rotation of variant 8 gives variant
      5, and for a canonical line one more rotation of variant 4, or the
      mirror of variant 5, gives the line back. */
  lemma VariantsClose(n: int, s: string)
    requires n <= 26
    ensures var vs := Variants(n, s);
            && vs[0] == s
            && RotateLine(n, vs[7]) == vs[4]
            && (CanonicalLine(n, s) ==> RotateLine(n, vs[3]) == vs[0] && FlipLine(n, vs[4]) == vs[0])
  {
    RotateTimesUnfold(n, s);
    var x := FlipLine(n, s);
    RotateTimesUnfold(n, x);
    TransformCanonical(Flip, n, s);
    RotateLineOrder4(n, x);
    if CanonicalLine(n, s) {
      RotateLineOrder4(n, s);
      FlipLineInvolution(n, s);
    }
  }
}
