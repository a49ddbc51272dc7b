# CLess pager core in Dafny

This project models the core of CLess, a minimal terminal pager written in C
(`cless.c`). The pager loads a file and cuts it into display lines of at most
80 bytes. Then, in the terminal's alternate screen, it shows a window of
those lines with a status line and scrolls one line per keystroke.

The C code works on `char`s, which are bytes. In the model every Dafny `char`
of the input, of a line and of a key stands for one byte. The width counts
bytes, so a multi-byte UTF-8 character can be cut across two lines, as in the
C code.

Three modules, one per component of the C program:

- `Splitter` (`splitter.dfy`) models `split_str`, the line splitter.
  - `SplitStr` is the C loop over the input, with the same counters.
  - It is proved equal to `Split`, a recursive function that scans the same way.
  - `Split` is proved equal to `ReferenceSplit`. That is an independent
    description: cut the text at every delimiter, then cut every piece into
    chunks of the width.
  - The remaining lemmas state the edge cases: empty input, a NUL byte,
    exactly `W` and `W + 1` bytes, a full line followed by the
    delimiter, and a trailing delimiter. They also state what every line
    looks like and that no input byte is lost or duplicated.
- `Viewer` (`viewer.dfy`) models the screen renderer and the scroll controller.
  - `draw_screen` becomes the method `DrawScreen`. It is proved against the
    window function `VisibleRows`.
  - The status line becomes `StatusOf`. It does the `%u` subtraction in
    unsigned arithmetic, written out.
  - The `Pager` class holds the one mutable integer `startLine`.
  - `HandleKey` is one pass of the key dispatch in `main`. `Run` is the whole
    draw/read/dispatch loop, fed a finite sequence of keystrokes.
  - The view invariant `0 <= startLine <= max(0, linesCount - termHeight)`
    is the class invariant `Valid`.
- `Cless` (`cless.dfy`) wires the two together the way `main` does. It splits
  on `'\n'` with width 80, then pages.

Where the help text and the code disagree, the model follows the code. The
help text (cless.c:116) says `j` goes up and `k` goes down. The code
(cless.c:155-156) scrolls down on `j` and up on `k`.

## Model

| member | source | states |
|---|---|---|
| `Splitter.SplitStr` | cless.c:56-103 | The loop returns exactly the lines of the specification function `Split(str, delim, maxLineSize)`, whose properties the lemmas below state. Its line counter equals the number of lines. |
| `Splitter.SplitFrom` | cless.c:63-100 | The scan from any point, with any line in progress, always produces at least one line. |
| `Splitter.CStringStopsAtNul` | cless.c:63 | The scanned text is a prefix of the buffer and holds no NUL. When it is shorter than the buffer, the next byte is NUL. |
| `Splitter.SplitEmptyInput` | cless.c:57-63 | Empty input gives exactly one empty line. So does input whose first byte is NUL. |
| `Splitter.SplitLineShape` | cless.c:64-97 | Every line has length at most the width. No line contains the delimiter or a NUL byte. |
| `Splitter.SplitConcat` | cless.c:63-97 | The lines written one after the other equal the input up to its first NUL with every delimiter removed. |
| `Splitter.WithoutCounts` | cless.c:89-97 | Removing the delimiters keeps every other byte exactly as many times as it occurs, so no byte is lost or duplicated. |
| `Splitter.ChunksShape` | cless.c:64-86 | Hard wrapping loses nothing. Every chunk but the last has exactly the width, and the last is empty only for empty text. |
| `Splitter.SplitMatchesReference` | cless.c:56-103 | For every input, delimiter and width, the scan equals the reference: cut at every delimiter, then wrap every piece into chunks of the width. |
| `Splitter.SplitUnbrokenText` | cless.c:64-97 | Text with no delimiter and no NUL is cut only by hard wraps, into chunks of the width. |
| `Splitter.SplitExactWidth` | cless.c:64-100 | Exactly `W` non-delimiter bytes give one line of length `W` and no trailing empty line. |
| `Splitter.SplitWidthPlusOne` | cless.c:64-100 | `W + 1` non-delimiter bytes give a line of the first `W` bytes and a line holding the last byte. The wrap consumes nothing. |
| `Splitter.SplitLineThenRest` | cless.c:64-86 | A delimiter-free piece followed by the delimiter is wrapped on its own, and the delimiter is consumed. What follows splits as if it were the whole input. |
| `Splitter.SplitWidthThenDelimiter` | cless.c:64-86 | A line that reaches width `W` just as the delimiter comes is broken once. The delimiter is consumed and no empty line follows. |
| `Splitter.SplitTrailingDelimiter` | cless.c:77-100 | Input that ends on the delimiter, with no NUL before it, ends with an empty line. |
| `Splitter.SplitCount` | cless.c:75-100 | There is at least one line and at most one more line than scanned bytes. |
| `Viewer.Scroll` | cless.c:154-156 | One key keeps the view invariant and moves the first line by at most 1. Only `j` moves down, and only while the signed guard `start < linesCount - termHeight` holds. Only `k` moves up, and only from a positive line. Conversely, `j` does move down one line whenever the guard holds, and `k` does move up one line from a positive line. Every other key changes nothing. |
| `Viewer.Replay` | cless.c:146-157 | A run of keys keeps the view invariant and moves the first line by at most the number of keys. |
| `Viewer.ReachableViewsInRange` | cless.c:146-156 | Starting from line 0, every sequence of keys keeps `0 <= start_line <= max(0, lines_count - term_height)`. |
| `Viewer.VisibleRows` | cless.c:28 | Every row shows the line its label names, and the labels are consecutive. |
| `Viewer.VisibleRowsExactly` | cless.c:28 | Line `i` appears, labelled `i + 1`, exactly when `start <= i < start + termHeight` and `i < linesCount`. |
| `Viewer.DrawScreen` | cless.c:27-30 | The counting loop prints exactly the rows of `VisibleRows`, in order. |
| `Viewer.StatusOf` | cless.c:150 | The second number is `linesCount - 1` in unsigned arithmetic. It is exact whenever there is at least one line, and it wraps to 2^32 - 1 for none. |
| `Viewer.StatusPositionIsBottomRow` | cless.c:150 | When the screen is full, the first status number is the label of the bottom row. |
| `Viewer.Pager.constructor` | cless.c:146 | A session starts at line 0, which satisfies the view invariant. |
| `Viewer.Pager.HandleKey` | cless.c:153-156 | It signals quit exactly for `q`. `j` steps down under the signed guard, `k` steps up from a positive line, and the view invariant is kept. |
| `Viewer.Pager.Draw` | cless.c:148-150 | One redraw equals the specification function `View` of the current first line: the rows of `VisibleRows` and the status pair of `StatusOf`. |
| `Viewer.Pager.Run` | cless.c:146-157 | The loop reads keys up to and including the first `q`, or all of them. It draws one frame before each read, so frame `t` is the view after the first `t` keys. The final view is the replay of the keys read. |
| `Cless.Page` | cless.c:127-157 | There is at most one frame more than there are keys. Frame `t` is the view of the split file after replaying the first `t` keys from line 0, so the first frame shows line 0 on. Without a `q` every key is read and one frame more is drawn; with one, paging stops at the first `q`, and the frame count is its position. Every status line's second number is the index of the last line, so it never underflows. Every row holds at most 80 bytes. |

## Left out

- Terminal raw mode (`tcgetattr`/`tcsetattr`, cless.c:8-25) is left out: it changes process-wide terminal state through foreign calls.
- The alternate-screen escape sequences and the clear-screen string printed before each frame are left out. They are output-only control sequences.
- The termcap lookup (cless.c:133-141) is a foreign library. Its height, `tgetnum("li") - 1`, is the integer parameter `termHeight`.
- File loading (`read_file`, cless.c:32-54) is file I/O. The loaded buffer is the input sequence `data`.
- `read_file`'s buffer has no terminator, so `split_str` can read past its end. The model ends the scan at the end of the sequence or at the first NUL, whichever comes first.
- The blocking one-byte `read` of a key becomes the next element of the `keys` sequence.
- `Viewer.Pager.Run` stops when `keys` runs out. The C loop would block on `read`, or use an uninitialised `c` at end of input; neither is modelled.
- `printf` output is modelled as `Row` and `Status` values, not as formatted characters.
- Allocation failures in `split_str` are not modelled; allocation always succeeds. Those branches are also defective: line 77 stores into `splitted` before the null check on line 78.
- C string termination is not modelled; lines are `seq<char>` values. In the C code the only NUL-terminated lines are the hard-wrapped ones (cless.c:72) and the empty lines after the first, which are the zeroed buffers of cless.c:77. Every other non-empty line, including a last line ended by the end of input, is unterminated. Line 0's buffer is allocated only at cless.c:66 or cless.c:89, so `lines[0]` is a null pointer whenever line 0 is empty: for empty input, and when the first byte is the delimiter or NUL. `draw_screen` then passes that null pointer to `%s` (cless.c:28). The model shows an empty row there.
- `max_line_size == 0` makes `split_str` loop forever on a non-delimiter byte. The splitter therefore requires a positive width.
- Argument handling and help text (cless.c:110-118) are left out as command-line plumbing.
- Integer widths are not modelled, except for the `%u` status number. The 32-bit `unsigned int` counters `i`, `index` and `*lines_count`, the `int` view line, the cast `(int)lines_count` and the sum `start_line + term_height` are all unbounded integers. The input index `i` wraps after 2^32 bytes of input, whatever the line count; `Cless.Page` excludes that below. `index` never exceeds the width. `*lines_count` is at most one more than the number of bytes scanned. The cast `(int)lines_count` and the `int` view line only overflow with more than 2^31 lines, and `start_line + term_height` only when that sum passes 2^31 - 1.
- Cless.Page: requires a buffer shorter than 2^32 bytes, the range of `split_str`'s `unsigned int` index. Longer input would make the C index wrap.
