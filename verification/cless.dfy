/**
 * The pager's `main`, from the loaded buffer on: split the buffer into lines
 * of at most 80 bytes on '\n', then run the key loop over them with the
 * screen height the terminal reports.
 */
module Cless {
  import opened Splitter
  import opened Viewer

  /** Width of a display line (`MAX_LINE_SIZE`). */
  const MAX_LINE_SIZE: nat := 80

  /** The line delimiter passed to the splitter. */
  const DELIMITER: char := '\n'

  /**
   * A paging session over the loaded bytes `data`, with `termHeight` lines
   * of text per screen and the keystrokes `keys`. The buffer is limited to
   * what the splitter's `unsigned int` counters can index.
   */
  method Page(data: seq<char>, termHeight: int, keys: seq<char>) returns (frames: seq<Frame>)
    requires |data| < UINT_RANGE
    ensures 1 <= |frames| <= |keys| + 1
    ensures frames[0] == View(Split(data, DELIMITER, MAX_LINE_SIZE), 0, termHeight)
    ensures forall t :: 0 <= t < |frames| ==>
      frames[t] == View(Split(data, DELIMITER, MAX_LINE_SIZE),
                        Replay(0, keys[..t], |Split(data, DELIMITER, MAX_LINE_SIZE)|, termHeight), termHeight)
    ensures 'q' !in keys ==> |frames| == |keys| + 1
    ensures 'q' in keys ==> |frames| <= |keys| && keys[|frames| - 1] == 'q' && 'q' !in keys[..|frames| - 1]
    ensures forall t :: 0 <= t < |frames| ==>
      frames[t].status.lastIndex == |Split(data, DELIMITER, MAX_LINE_SIZE)| - 1
    ensures forall t, k :: 0 <= t < |frames| && 0 <= k < |frames[t].rows| ==>
      |frames[t].rows[k].text| <= MAX_LINE_SIZE
  {
    var lines, linesCount := SplitStr(data, DELIMITER, MAX_LINE_SIZE);
    SplitCount(data, DELIMITER, MAX_LINE_SIZE);
    CStringStopsAtNul(data);
    forall i | 0 <= i < |lines|
      ensures |lines[i]| <= MAX_LINE_SIZE
    {
      SplitLineShape(data, DELIMITER, MAX_LINE_SIZE, i);
    }
    var pager := new Pager(lines, termHeight);
    var read;
    frames, read := pager.Run(keys);
    assert keys[..0] == [];
  }
}
