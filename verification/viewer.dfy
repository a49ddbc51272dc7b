/**
 * The screen renderer and the scroll controller of the pager: `draw_screen`,
 * the status line and the keystroke loop of `main` in cless.c.
 *
 * The view state is one signed integer, the index of the first visible line.
 * `j` moves it down while it is below `linesCount - termHeight`, `k` moves it
 * up while it is positive, `q` ends the loop and every other key does
 * nothing. Each frame lists the lines from the first visible one on, at most
 * `termHeight` of them, numbered from 1, and a status pair made of the first
 * line index and the height added together and the last line index.
 */
module Viewer {

  /** Numbers printed with `%u` are taken modulo this. */
  const UINT_RANGE: int := 0x1_0000_0000

  /** One printed line of a frame: its 1-based number and its text. */
  datatype Row = Row(number: int, text: seq<char>)

  /** The two numbers of the status line. */
  datatype Status = Status(position: int, lastIndex: int)

  /** Everything one redraw puts on the screen. */
  datatype Frame = Frame(rows: seq<Row>, status: Status)

  /** The largest first line the scroll keys can reach. */
  function MaxStart(linesCount: nat, termHeight: int): nat
  {
    if linesCount - termHeight > 0 then linesCount - termHeight else 0
  }

  /** The view invariant: the first visible line lies between 0 and `MaxStart`. */
  predicate InRange(start: int, linesCount: nat, termHeight: int)
  {
    0 <= start <= MaxStart(linesCount, termHeight)
  }

  /**
   * The effect of one keystroke on the first visible line. The comparison
   * for `j` is the signed one of the C code, so it is false, not wrapped,
   * when the file is shorter than the screen.
   */
  function Scroll(start: int, key: char, linesCount: nat, termHeight: int): (next: int)
    ensures InRange(start, linesCount, termHeight) ==> InRange(next, linesCount, termHeight)
    ensures -1 <= next - start <= 1
    ensures next > start ==> key == 'j' && start + 1 <= linesCount - termHeight
    ensures next < start ==> key == 'k' && 0 < start
    ensures key != 'j' && key != 'k' ==> next == start
    ensures key == 'j' && start < linesCount - termHeight ==> next == start + 1
    ensures key == 'k' && start > 0 ==> next == start - 1
  {
    if key == 'q' then start
    else if key == 'j' && start < linesCount - termHeight then start + 1
    else if key == 'k' && start > 0 then start - 1
    else start
  }

  /** The first visible line after the keys `keys`, one after the other, starting from `start`. */
  function Replay(start: int, keys: seq<char>, linesCount: nat, termHeight: int): (final: int)
    ensures InRange(start, linesCount, termHeight) ==> InRange(final, linesCount, termHeight)
    ensures -|keys| <= final - start <= |keys|
  {
    if keys == [] then start
    else Scroll(Replay(start, keys[..|keys| - 1], linesCount, termHeight), keys[|keys| - 1], linesCount, termHeight)
  }

  /** Replaying one key more is one more scroll step. */
  lemma {:induction false} ReplayStep(start: int, keys: seq<char>, i: nat, linesCount: nat, termHeight: int)
    requires i < |keys|
    ensures keys[..i + 1][..i] == keys[..i]
    ensures Replay(start, keys[..i + 1], linesCount, termHeight)
      == Scroll(Replay(start, keys[..i], linesCount, termHeight), keys[i], linesCount, termHeight)
    ensures 'q' !in keys[..i] && keys[i] != 'q' ==> 'q' !in keys[..i + 1]
  {
    assert keys[..i + 1][..i] == keys[..i];
    assert keys[..i + 1] == keys[..i] + [keys[i]];
  }

  /** Every view the key loop can reach from its start at line 0 satisfies the view invariant. */
  lemma {:induction false} ReachableViewsInRange(keys: seq<char>, linesCount: nat, termHeight: int)
    ensures InRange(Replay(0, keys, linesCount, termHeight), linesCount, termHeight)
  {
  }

  /**
   * The rows of one frame: the lines from index `start` on, at most
   * `termHeight` of them, in order; every row shows the line its label
   * names, and the labels are consecutive.
   */
  function VisibleRows(lines: seq<seq<char>>, start: nat, termHeight: int): (rows: seq<Row>)
    ensures forall k :: 0 <= k < |rows| ==> 1 <= rows[k].number <= |lines| && rows[k].text == lines[rows[k].number - 1]
    ensures forall k :: 0 < k < |rows| ==> rows[k].number == rows[k - 1].number + 1
  {
    var stop := if start + termHeight < |lines| then start + termHeight else |lines|;
    if stop <= start then []
    else seq(stop - start, k requires 0 <= k < stop - start => Row(start + k + 1, lines[start + k]))
  }

  /** Line `i` is on the screen, labelled `i + 1`, exactly when it lies in the window below `start`. */
  lemma {:induction false} VisibleRowsExactly(lines: seq<seq<char>>, start: nat, termHeight: int, i: nat)
    requires i < |lines|
    ensures Row(i + 1, lines[i]) in VisibleRows(lines, start, termHeight) <==> start <= i < start + termHeight
  {
    var rows := VisibleRows(lines, start, termHeight);
    if start <= i < start + termHeight {
      assert rows[i - start] == Row(i + 1, lines[i]);
    }
    if Row(i + 1, lines[i]) in rows {
      var k :| 0 <= k < |rows| && rows[k] == Row(i + 1, lines[i]);
      assert k == i - start;
    }
  }

  /**
   * The status pair. The second number is `linesCount - 1` computed in
   * unsigned arithmetic; it is the index of the last line whenever there is
   * at least one line.
   */
  function StatusOf(start: int, termHeight: int, linesCount: nat): (s: Status)
    ensures 1 <= linesCount <= UINT_RANGE ==> s.lastIndex == linesCount - 1
    ensures linesCount == 0 ==> s.lastIndex == UINT_RANGE - 1
  {
    Status(start + termHeight, (linesCount - 1) % UINT_RANGE)
  }

  /** The first status number is the label of the bottom row whenever the screen is full. */
  lemma {:induction false} StatusPositionIsBottomRow(lines: seq<seq<char>>, start: nat, termHeight: int)
    requires 0 < termHeight && start + termHeight <= |lines|
    ensures |VisibleRows(lines, start, termHeight)| == termHeight
    ensures VisibleRows(lines, start, termHeight)[termHeight - 1].number == StatusOf(start, termHeight, |lines|).position
  {
  }

  /** The frame drawn for the first visible line `start`. */
  function View(lines: seq<seq<char>>, start: nat, termHeight: int): Frame
  {
    Frame(VisibleRows(lines, start, termHeight), StatusOf(start, termHeight, |lines|))
  }

  /** draw_screen: the counting loop that prints the visible lines. */
  method DrawScreen(lines: seq<seq<char>>, start: nat, termHeight: int) returns (rows: seq<Row>)
    ensures rows == VisibleRows(lines, start, termHeight)
  {
    rows := [];
    var i := start;
    while i < start + termHeight && i < |lines|
      invariant start <= i
      invariant i > start ==> i <= start + termHeight && i <= |lines|
      invariant |rows| == i - start
      invariant forall k :: 0 <= k < |rows| ==> rows[k] == Row(start + k + 1, lines[start + k])
    {
      rows := rows + [Row(i + 1, lines[i])];
      i := i + 1;
    }
  }

  /** The paging session: the loaded lines, the usable screen height and the view state. */
  class Pager {
    const lines: seq<seq<char>>
    const termHeight: int
    var startLine: int

    ghost predicate Valid()
      reads this
    {
      InRange(startLine, |lines|, termHeight)
    }

    constructor (lines: seq<seq<char>>, termHeight: int)
      ensures Valid()
      ensures this.lines == lines && this.termHeight == termHeight && startLine == 0
    {
      this.lines := lines;
      this.termHeight := termHeight;
      startLine := 0;
    }

    /** One keystroke of the main loop; `quit` tells the loop to stop. */
    method HandleKey(key: char) returns (quit: bool)
      requires Valid()
      modifies this
      ensures Valid()
      ensures quit <==> key == 'q'
      ensures key == 'j' && old(startLine) < |lines| - termHeight ==> startLine == old(startLine) + 1
      ensures key == 'k' && old(startLine) > 0 ==> startLine == old(startLine) - 1
      ensures startLine == Scroll(old(startLine), key, |lines|, termHeight)
    {
      if key == 'q' {
        return true;
      }
      quit := false;
      if key == 'j' && startLine < |lines| - termHeight {
        startLine := startLine + 1;
      } else if key == 'k' && startLine > 0 {
        startLine := startLine - 1;
      }
    }

    /** One redraw: the visible lines and the status line. */
    method Draw() returns (frame: Frame)
      requires Valid()
      ensures frame == View(lines, startLine, termHeight)
    {
      var rows := DrawScreen(lines, startLine, termHeight);
      frame := Frame(rows, StatusOf(startLine, termHeight, |lines|));
    }

    /**
     * The main loop, fed the keystrokes `keys`: draw, read a key, stop on
     * `q`, otherwise scroll and go round again. When the keys run out the
     * loop stops after its last frame. `read` is the number of keys read.
     */
    method Run(keys: seq<char>) returns (frames: seq<Frame>, read: nat)
      requires Valid()
      modifies this
      ensures Valid()
      ensures read <= |keys|
      ensures 'q' in keys ==> 0 < read && keys[read - 1] == 'q' && 'q' !in keys[..read - 1]
      ensures 'q' !in keys ==> read == |keys|
      ensures |frames| == if 'q' in keys then read else read + 1
      ensures startLine == Replay(old(startLine), keys[..read], |lines|, termHeight)
      ensures forall t :: 0 <= t < |frames| ==>
        frames[t] == View(lines, Replay(old(startLine), keys[..t], |lines|, termHeight), termHeight)
    {
      ghost var start0 := startLine;
      frames := [];
      read := 0;
      while true
        invariant Valid() && InRange(start0, |lines|, termHeight)
        invariant read <= |keys| && 'q' !in keys[..read]
        invariant startLine == Replay(start0, keys[..read], |lines|, termHeight)
        invariant |frames| == read
        invariant forall t :: 0 <= t < read ==>
          frames[t] == View(lines, Replay(start0, keys[..t], |lines|, termHeight), termHeight)
        decreases |keys| - read
      {
        var frame := Draw();
        ghost var before := frames;
        frames := frames + [frame];
        forall t | 0 <= t < |frames|
          ensures frames[t] == View(lines, Replay(start0, keys[..t], |lines|, termHeight), termHeight)
        {
          if t < read {
            assert frames[t] == before[t];
          }
        }
        if read == |keys| {
          assert keys[..read] == keys;
          assert 'q' !in keys;
          break;
        }
        var key := keys[read];
        ReplayStep(start0, keys, read, |lines|, termHeight);
        read := read + 1;
        var quit := HandleKey(key);
        if quit {
          assert keys[read - 1] in keys;
          break;
        }
      }
    }
  }
}
