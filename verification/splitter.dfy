/**
 * The line splitter of the pager (`split_str` in cless.c).
 *
 * The loaded file is scanned byte by byte (each `char` here stands for one
 * byte) and cut into display lines of at most `w` bytes. A delimiter closes the current line and is consumed
 * (a "soft break"); a line that has reached `w` characters is closed before
 * the next byte is looked at and no byte is consumed (a "hard wrap"). The
 * scan stops at the first NUL byte or at the end of the buffer, and the line
 * in progress, possibly empty, always becomes the last line.
 *
 * `SplitFrom` is the scan as a recursive function and `SplitStr` the loop of
 * the C code proved against it. `ReferenceSplit` is an independent
 * description of the same result (cut at every delimiter, then cut every
 * piece into chunks of `w`), and the lemmas connect the two and state the
 * edge cases.
 */
module Splitter {

  /** The byte that ends a C string. */
  const NUL: char := '\0'

  /** The bytes a scan of `s` sees that stops at the first NUL: all of `s` when it holds none. */
  function CString(s: seq<char>): seq<char>
  {
    if s == [] || s[0] == NUL then [] else [s[0]] + CString(s[1..])
  }

  /** The scan sees a prefix of the buffer that holds no NUL and ends at the first NUL, if any. */
  lemma {:induction false} CStringStopsAtNul(s: seq<char>)
    ensures CString(s) <= s && NUL !in CString(s)
    ensures |CString(s)| < |s| ==> s[|CString(s)|] == NUL
  {
    if s != [] && s[0] != NUL {
      CStringStopsAtNul(s[1..]);
      assert s == [s[0]] + s[1..];
    }
  }

  /** `s` with every occurrence of `d` removed and every other character kept, in order. */
  function Without(s: seq<char>, d: char): (r: seq<char>)
    ensures d !in r
  {
    if s == [] then [] else (if s[0] == d then [] else [s[0]]) + Without(s[1..], d)
  }

  /** Removing `d` keeps every other character exactly as often as it occurs. */
  lemma {:induction false} WithoutCounts(s: seq<char>, d: char)
    ensures multiset(Without(s, d)) == multiset(s)[d := 0]
  {
    if s != [] {
      WithoutCounts(s[1..], d);
      assert s == [s[0]] + s[1..];
    }
  }

  /** All lines written one after the other, with nothing in between. */
  function Flatten(lines: seq<seq<char>>): seq<char>
  {
    if lines == [] then [] else lines[0] + Flatten(lines[1..])
  }

  lemma {:induction false} FlattenCons(line: seq<char>, lines: seq<seq<char>>)
    ensures Flatten([line] + lines) == line + Flatten(lines)
  {
    assert ([line] + lines)[1..] == lines;
  }

  /**
   * The scan of split_str from a point where `cur` is the line in progress
   * and `s` is the input not yet read. The tests come in the order of the
   * C loop: end of the C string first, then delimiter or full line.
   */
  function SplitFrom(s: seq<char>, d: char, w: nat, cur: seq<char>): (lines: seq<seq<char>>)
    requires 0 < w && |cur| <= w
    ensures |lines| >= 1
    decreases 2 * |s| + (if |cur| == w then 1 else 0)
  {
    if s == [] || s[0] == NUL then [cur]
    else if s[0] == d || |cur| == w then
      [cur] + SplitFrom(if s[0] == d then s[1..] else s, d, w, [])
    else SplitFrom(s[1..], d, w, cur + [s[0]])
  }

  /** The lines split_str makes of the buffer `s` with delimiter `d` and width `w`. */
  function Split(s: seq<char>, d: char, w: nat): seq<seq<char>>
    requires 0 < w
  {
    SplitFrom(s, d, w, [])
  }

  /**
   * split_str as the C code runs it: `i` indexes the input, `index` is the
   * length of the line being built, `linesCount` counts the closed lines.
   */
  method SplitStr(str: seq<char>, delim: char, maxLineSize: nat) returns (lines: seq<seq<char>>, linesCount: nat)
    requires 0 < maxLineSize
    ensures lines == Split(str, delim, maxLineSize)
    ensures linesCount == |lines|
  {
    lines := [];
    linesCount := 0;
    var line: seq<char> := [];
    var i, index := 0, 0;
    while i < |str| && str[i] != NUL
      invariant i <= |str|
      invariant index == |line| <= maxLineSize
      invariant linesCount == |lines|
      invariant lines + SplitFrom(str[i..], delim, maxLineSize, line) == Split(str, delim, maxLineSize)
      decreases 2 * (|str| - i) + (if index == maxLineSize then 1 else 0)
    {
      assert str[i..][1..] == str[i + 1..];
      if str[i] == delim || index == maxLineSize {
        lines := lines + [line];
        linesCount := linesCount + 1;
        line := [];
        index := 0;
        if str[i] == delim {
          i := i + 1;
        }
      } else {
        line := line + [str[i]];
        index := index + 1;
        i := i + 1;
      }
    }
    lines := lines + [line];
    linesCount := linesCount + 1;
  }

  // ---------------------------------------------------------------------
  // Reference description: cut at delimiters, then hard-wrap every piece.
  // ---------------------------------------------------------------------

  /** `x` cut into consecutive chunks of `w` characters. */
  function Chunks(x: seq<char>, w: nat): seq<seq<char>>
    requires 0 < w
    decreases |x|
  {
    if |x| <= w then [x] else [x[..w]] + Chunks(x[w..], w)
  }

  /** Every chunk but the last is full, the last is empty only when `x` is, and nothing is lost. */
  lemma {:induction false} ChunksShape(x: seq<char>, w: nat)
    requires 0 < w
    ensures |Chunks(x, w)| >= 1 && Flatten(Chunks(x, w)) == x
    ensures forall k :: 0 <= k < |Chunks(x, w)| ==> |Chunks(x, w)[k]| <= w
    ensures forall k :: 0 <= k < |Chunks(x, w)| - 1 ==> |Chunks(x, w)[k]| == w
    ensures |x| > 0 ==> |Chunks(x, w)[|Chunks(x, w)| - 1]| > 0
    decreases |x|
  {
    if |x| > w {
      var rest := Chunks(x[w..], w);
      ChunksShape(x[w..], w);
      FlattenCons(x[..w], rest);
      assert x == x[..w] + x[w..];
    } else {
      FlattenCons(x, []);
    }
  }

  /** The pieces of `s` between the delimiters `d`. */
  function Segments(s: seq<char>, d: char): (segs: seq<seq<char>>)
    ensures |segs| >= 1
  {
    if s == [] then [[]]
    else
      var rest := Segments(s[1..], d);
      if s[0] == d then [[]] + rest else [[s[0]] + rest[0]] + rest[1..]
  }

  /** Every piece hard-wrapped into chunks of `w`, in order. */
  function WrapAll(segs: seq<seq<char>>, w: nat): seq<seq<char>>
    requires 0 < w
  {
    if segs == [] then [] else Chunks(segs[0], w) + WrapAll(segs[1..], w)
  }

  /** What the splitter is meant to produce, stated without the scan. */
  function ReferenceSplit(s: seq<char>, d: char, w: nat): seq<seq<char>>
    requires 0 < w
  {
    WrapAll(Segments(CString(s), d), w)
  }

  lemma {:induction false} SegmentsExtend(x: seq<char>, p: seq<char>, d: char)
    requires d !in x
    ensures Segments(x + p, d) == [x + Segments(p, d)[0]] + Segments(p, d)[1..]
    decreases |x|
  {
    var tail := Segments(p, d);
    if x == [] {
      assert x + p == p;
      assert x + tail[0] == tail[0];
      assert tail == [tail[0]] + tail[1..];
    } else {
      SegmentsExtend(x[1..], p, d);
      assert x[0] in x;
      var y := x + p;
      assert y[0] == x[0] && y[1..] == x[1..] + p;
      var rest := Segments(y[1..], d);
      assert rest == [x[1..] + tail[0]] + tail[1..];
      assert rest[0] == x[1..] + tail[0] && rest[1..] == tail[1..];
      assert Segments(y, d) == [[x[0]] + rest[0]] + rest[1..];
      assert [x[0]] + (x[1..] + tail[0]) == x + tail[0];
    }
  }

  lemma {:induction false} SegmentsAtDelimiter(x: seq<char>, p: seq<char>, d: char)
    requires d !in x
    ensures Segments(x + [d] + p, d) == [x] + Segments(p, d)
  {
    assert ([d] + p)[0] == d && ([d] + p)[1..] == p;
    assert Segments([d] + p, d) == [[]] + Segments(p, d);
    SegmentsExtend(x, [d] + p, d);
    assert x + [d] + p == x + ([d] + p);
    assert x + [] == x;
  }

  lemma {:induction false} SegmentsWithoutDelimiter(x: seq<char>, d: char)
    requires d !in x
    ensures Segments(x, d) == [x]
  {
    SegmentsExtend(x, [], d);
    assert x + [] == x;
  }

  lemma {:induction false} CStringAppend(x: seq<char>, s: seq<char>)
    requires NUL !in x
    ensures CString(x + s) == x + CString(s)
    decreases |x|
  {
    if x == [] {
      assert x + s == s;
    } else {
      CStringAppend(x[1..], s);
      assert x[0] in x;
      var y := x + s;
      assert y[0] == x[0] && y[1..] == x[1..] + s;
      assert CString(y) == [x[0]] + CString(x[1..] + s);
      assert [x[0]] + (x[1..] + CString(s)) == x + CString(s);
    }
  }

  /** A line in progress that the input ends, or that a delimiter follows, is one reference line. */
  lemma {:induction false} WrapClosedLine(cur: seq<char>, t: seq<char>, d: char, w: nat)
    requires 0 < w && |cur| <= w && d !in cur
    ensures WrapAll(Segments(cur, d), w) == [cur]
    ensures WrapAll(Segments(cur + [d] + t, d), w) == [cur] + WrapAll(Segments(t, d), w)
  {
    SegmentsWithoutDelimiter(cur, d);
    assert WrapAll([cur], w) == Chunks(cur, w) + WrapAll([], w);
    SegmentsAtDelimiter(cur, t, d);
    var segs := [cur] + Segments(t, d);
    assert segs[1..] == Segments(t, d);
  }

  lemma {:induction false} ChunksAfterFullLine(cur: seq<char>, rest: seq<char>, w: nat)
    requires 0 < w && |cur| == w && rest != []
    ensures Chunks(cur + rest, w) == [cur] + Chunks(rest, w)
  {
    var line := cur + rest;
    assert line[..w] == cur && line[w..] == rest;
  }

  /** A full line followed by more text of the same piece is a hard wrap in the reference too. */
  lemma {:induction false} WrapFullLine(cur: seq<char>, p: seq<char>, d: char, w: nat)
    requires 0 < w && |cur| == w && d !in cur
    requires p != [] && p[0] != d
    ensures WrapAll(Segments(cur + p, d), w) == [cur] + WrapAll(Segments(p, d), w)
  {
    var tail := Segments(p, d);
    assert tail[0] != [] by {
      assert p == [p[0]] + p[1..];
    }
    SegmentsExtend(cur, p, d);
    var line := cur + tail[0];
    ChunksAfterFullLine(cur, tail[0], w);
    var segs := [line] + tail[1..];
    assert segs[1..] == tail[1..];
    assert WrapAll(tail, w) == Chunks(tail[0], w) + WrapAll(tail[1..], w);
  }

  /** A delimiter closes the line in progress in both descriptions. */
  lemma {:induction false} MatchAtDelimiter(s: seq<char>, d: char, w: nat, cur: seq<char>)
    requires 0 < w && |cur| <= w && d !in cur
    requires s != [] && s[0] != NUL && s[0] == d
    requires SplitFrom(s[1..], d, w, []) == WrapAll(Segments([] + CString(s[1..]), d), w)
    ensures SplitFrom(s, d, w, cur) == WrapAll(Segments(cur + CString(s), d), w)
  {
    var t := CString(s[1..]);
    assert CString(s) == [d] + t;
    assert [] + t == t;
    assert cur + CString(s) == cur + [d] + t;
    WrapClosedLine(cur, t, d, w);
  }

  /** A full line before a byte that is not the delimiter is a hard wrap in both descriptions. */
  lemma {:induction false} MatchAtFullLine(s: seq<char>, d: char, w: nat, cur: seq<char>)
    requires 0 < w && |cur| == w && d !in cur
    requires s != [] && s[0] != NUL && s[0] != d
    requires SplitFrom(s, d, w, []) == WrapAll(Segments([] + CString(s), d), w)
    ensures SplitFrom(s, d, w, cur) == WrapAll(Segments(cur + CString(s), d), w)
  {
    var p := CString(s);
    assert p == [s[0]] + CString(s[1..]);
    assert [] + p == p;
    WrapFullLine(cur, p, d, w);
  }

  /** Storing a byte in the line in progress moves it from the input to `cur` in both descriptions. */
  lemma {:induction false} MatchAtByte(s: seq<char>, d: char, w: nat, cur: seq<char>)
    requires 0 < w && |cur| < w && d !in cur
    requires s != [] && s[0] != NUL && s[0] != d
    requires SplitFrom(s[1..], d, w, cur + [s[0]]) == WrapAll(Segments(cur + [s[0]] + CString(s[1..]), d), w)
    ensures SplitFrom(s, d, w, cur) == WrapAll(Segments(cur + CString(s), d), w)
  {
    assert CString(s) == [s[0]] + CString(s[1..]);
    assert cur + [s[0]] + CString(s[1..]) == cur + CString(s);
  }

  /** The scan from any state agrees with the reference description of what is left. */
  lemma {:induction false} SplitFromMatchesReference(s: seq<char>, d: char, w: nat, cur: seq<char>)
    requires 0 < w && |cur| <= w && d !in cur
    ensures SplitFrom(s, d, w, cur) == WrapAll(Segments(cur + CString(s), d), w)
    decreases 2 * |s| + (if |cur| == w then 1 else 0)
  {
    if s == [] || s[0] == NUL {
      assert cur + CString(s) == cur;
      WrapClosedLine(cur, [], d, w);
    } else if s[0] == d {
      SplitFromMatchesReference(s[1..], d, w, []);
      MatchAtDelimiter(s, d, w, cur);
    } else if |cur| == w {
      SplitFromMatchesReference(s, d, w, []);
      MatchAtFullLine(s, d, w, cur);
    } else {
      SplitFromMatchesReference(s[1..], d, w, cur + [s[0]]);
      MatchAtByte(s, d, w, cur);
    }
  }

  // ---------------------------------------------------------------------
  // Properties of the splitter.
  // ---------------------------------------------------------------------

  /** The splitter and the reference description give the same lines on every input. */
  lemma {:induction false} SplitMatchesReference(s: seq<char>, d: char, w: nat)
    requires 0 < w
    ensures Split(s, d, w) == ReferenceSplit(s, d, w)
  {
    SplitFromMatchesReference(s, d, w, []);
    assert [] + CString(s) == CString(s);
  }

  /** Empty input, and input that starts with NUL, give exactly one empty line. */
  lemma {:induction false} SplitEmptyInput(rest: seq<char>, d: char, w: nat)
    requires 0 < w
    ensures Split([], d, w) == [[]]
    ensures Split([NUL] + rest, d, w) == [[]]
  {
  }

  lemma {:induction false} SplitFromFlattens(s: seq<char>, d: char, w: nat, cur: seq<char>)
    requires 0 < w && |cur| <= w
    ensures Flatten(SplitFrom(s, d, w, cur)) == cur + Without(CString(s), d)
    decreases 2 * |s| + (if |cur| == w then 1 else 0)
  {
    if s == [] || s[0] == NUL {
      FlattenCons(cur, []);
    } else {
      var c, t := s[0], CString(s[1..]);
      assert CString(s) == [c] + t;
      assert ([c] + t)[0] == c && ([c] + t)[1..] == t;
      if c == d {
        var rest := SplitFrom(s[1..], d, w, []);
        SplitFromFlattens(s[1..], d, w, []);
        FlattenCons(cur, rest);
        assert Without([c] + t, d) == Without(t, d);
      } else if |cur| == w {
        SplitFromFlattens(s, d, w, []);
        FlattenCons(cur, SplitFrom(s, d, w, []));
      } else {
        SplitFromFlattens(s[1..], d, w, cur + [c]);
        assert Without([c] + t, d) == [c] + Without(t, d);
        assert cur + [c] + Without(t, d) == cur + ([c] + Without(t, d));
      }
    }
  }

  /**
   * Writing the lines one after the other gives the input up to its first
   * NUL with every delimiter removed: no byte is lost or duplicated.
   */
  lemma {:induction false} SplitConcat(s: seq<char>, d: char, w: nat)
    requires 0 < w
    ensures Flatten(Split(s, d, w)) == Without(CString(s), d)
  {
    SplitFromFlattens(s, d, w, []);
    assert [] + Without(CString(s), d) == Without(CString(s), d);
  }

  lemma {:induction false} SplitFromLineShape(s: seq<char>, d: char, w: nat, cur: seq<char>)
    requires 0 < w && |cur| <= w && d !in cur && NUL !in cur
    ensures forall k :: 0 <= k < |SplitFrom(s, d, w, cur)| ==>
      |SplitFrom(s, d, w, cur)[k]| <= w && d !in SplitFrom(s, d, w, cur)[k] && NUL !in SplitFrom(s, d, w, cur)[k]
    decreases 2 * |s| + (if |cur| == w then 1 else 0)
  {
    if s == [] || s[0] == NUL {
    } else if s[0] == d || |cur| == w {
      SplitFromLineShape(if s[0] == d then s[1..] else s, d, w, []);
    } else {
      SplitFromLineShape(s[1..], d, w, cur + [s[0]]);
    }
  }

  /** Every line fits the width and holds neither the delimiter nor a NUL byte. */
  lemma {:induction false} SplitLineShape(s: seq<char>, d: char, w: nat, k: nat)
    requires 0 < w && k < |Split(s, d, w)|
    ensures |Split(s, d, w)[k]| <= w
    ensures d !in Split(s, d, w)[k] && NUL !in Split(s, d, w)[k]
  {
    SplitFromLineShape(s, d, w, []);
  }

  /** Text with no delimiter and no NUL is only hard-wrapped. */
  lemma {:induction false} SplitUnbrokenText(x: seq<char>, d: char, w: nat)
    requires 0 < w && d !in x && NUL !in x
    ensures Split(x, d, w) == Chunks(x, w)
  {
    SplitMatchesReference(x, d, w);
    CStringAppend(x, []);
    assert x + [] == x;
    SegmentsWithoutDelimiter(x, d);
    assert WrapAll([x], w) == Chunks(x, w) + WrapAll([], w);
  }

  /** Exactly `w` characters give one full line and no trailing empty line. */
  lemma {:induction false} SplitExactWidth(x: seq<char>, d: char, w: nat)
    requires 0 < w && |x| == w && d !in x && NUL !in x
    ensures Split(x, d, w) == [x]
  {
    SplitUnbrokenText(x, d, w);
  }

  /** `w + 1` characters give a full line and a line holding the last character. */
  lemma {:induction false} SplitWidthPlusOne(x: seq<char>, d: char, w: nat)
    requires 0 < w && |x| == w + 1 && d !in x && NUL !in x
    ensures Split(x, d, w) == [x[..w], [x[w]]]
  {
    SplitUnbrokenText(x, d, w);
    assert x[w..] == [x[w]];
  }

  /** A delimiter-free line followed by the delimiter is wrapped on its own; the rest splits as if it came first. */
  lemma {:induction false} SplitLineThenRest(x: seq<char>, d: char, rest: seq<char>, w: nat)
    requires 0 < w && d != NUL && d !in x && NUL !in x
    ensures Split(x + [d] + rest, d, w) == Chunks(x, w) + Split(rest, d, w)
  {
    SplitMatchesReference(x + [d] + rest, d, w);
    SplitMatchesReference(rest, d, w);
    CStringAppend(x + [d], rest);
    SegmentsAtDelimiter(x, CString(rest), d);
    var segs := [x] + Segments(CString(rest), d);
    assert segs[1..] == Segments(CString(rest), d);
  }

  /**
   * A line that reaches width `w` just as the delimiter comes is broken
   * once: the delimiter is consumed and no empty line follows.
   */
  lemma {:induction false} SplitWidthThenDelimiter(x: seq<char>, d: char, rest: seq<char>, w: nat)
    requires 0 < w && d != NUL && |x| == w && d !in x && NUL !in x
    ensures Split(x + [d] + rest, d, w) == [x] + Split(rest, d, w)
  {
    SplitLineThenRest(x, d, rest, w);
  }

  lemma {:induction false} SplitFromEndsEmpty(s: seq<char>, d: char, w: nat, cur: seq<char>)
    requires 0 < w && |cur| <= w && d != NUL && NUL !in s
    ensures SplitFrom(s + [d], d, w, cur)[|SplitFrom(s + [d], d, w, cur)| - 1] == []
    decreases 2 * |s| + (if |cur| == w then 1 else 0)
  {
    if s == [] {
      assert ([] + [d])[1..] == [];
    } else if s[0] == d {
      assert (s + [d])[1..] == s[1..] + [d];
      SplitFromEndsEmpty(s[1..], d, w, []);
    } else if |cur| == w {
      SplitFromEndsEmpty(s, d, w, []);
    } else {
      assert (s + [d])[1..] == s[1..] + [d];
      SplitFromEndsEmpty(s[1..], d, w, cur + [s[0]]);
    }
  }

  /** Input that ends on the delimiter (before any NUL) ends with an empty line. */
  lemma {:induction false} SplitTrailingDelimiter(s: seq<char>, d: char, w: nat)
    requires 0 < w && d != NUL && NUL !in s
    ensures Split(s + [d], d, w)[|Split(s + [d], d, w)| - 1] == []
  {
    SplitFromEndsEmpty(s, d, w, []);
  }

  lemma {:induction false} SplitFromCount(s: seq<char>, d: char, w: nat, cur: seq<char>)
    requires 0 < w && |cur| <= w
    ensures |SplitFrom(s, d, w, cur)| <= |CString(s)| + 1 + (if |cur| == w then 1 else 0)
    decreases 2 * |s| + (if |cur| == w then 1 else 0)
  {
    if s == [] || s[0] == NUL {
    } else if s[0] == d || |cur| == w {
      SplitFromCount(if s[0] == d then s[1..] else s, d, w, []);
      assert CString(s) == [s[0]] + CString(s[1..]);
    } else {
      SplitFromCount(s[1..], d, w, cur + [s[0]]);
      assert CString(s) == [s[0]] + CString(s[1..]);
    }
  }

  /** There are never more lines than scanned bytes plus one, so the C line counter stays small. */
  lemma {:induction false} SplitCount(s: seq<char>, d: char, w: nat)
    requires 0 < w
    ensures 1 <= |Split(s, d, w)| <= |CString(s)| + 1
  {
    SplitFromCount(s, d, w, []);
  }
}
