/**
 * The render-loop driver of the viewer.  Between ticks it keeps one grid,
 * `temperature_data`, which starts as 12 x 16 zeros.  Each tick decodes the
 * next line: a decoded frame is transposed back into 12 x 16 and replaces
 * the grid, "no frame" leaves it as it is.  The grid is then upscaled and
 * smoothed (outside this model) and clipped to the display ceiling.
 */
module Viewer {
  import opened Wrappers
  import opened Numeral
  import opened Grids
  import opened FrameDecoder

  /**
   * The grid kept after a tick whose decoder outcome is `frame`: a frame
   * (16 rows of 12) is transposed back into 12 rows of 16 and replaces the
   * grid, "no frame" keeps it.
   */
  function Keep(current: Grid, frame: Option<Grid>): (next: Grid)
    requires frame.Some? ==> IsGrid(frame.value, Cols, Rows)
    ensures frame.None? ==> next == current
    ensures frame.Some? ==>
              IsGrid(next, Rows, Cols) &&
              forall r, c :: 0 <= r < Rows && 0 <= c < Cols ==> next[r][c] == frame.value[c][r]
  {
    match frame
    case None => current
    case Some(f) => Transpose(f, Cols, Rows)
  }

  /**
   * The grid kept after a tick that received `line`.  A decoded frame
   * replaces the grid entirely: its value `r * 16 + c` lands at row `r`,
   * column `c`, because the decoder's transpose and this one cancel.
   */
  function Latch(current: Grid, line: string): (next: Grid)
    ensures Decode(line).None? ==> next == current
    ensures Decode(line).Some? ==>
              IsGrid(next, Rows, Cols) &&
              forall r, c :: 0 <= r < Rows && 0 <= c < Cols ==>
                next[r][c] == ParseNum(Fields(line)[r * Cols + c]).value
  {
    Keep(current, Decode(line))
  }

  /** The grid kept after a tick is a 12 x 16 grid whenever it was one before. */
  lemma LatchKeepsShape(current: Grid, line: string)
    requires IsGrid(current, Rows, Cols)
    ensures IsGrid(Latch(current, line), Rows, Cols)
  {
  }

  /** After a decoded frame, the kept grid is the frame's values in row-major order. */
  lemma LatchIsRowMajor(current: Grid, line: string)
    requires Decode(line).Some?
    ensures ParseAll(Fields(line), ParseNum).Some?
    ensures |ParseAll(Fields(line), ParseNum).value| == FrameSize
    ensures Latch(current, line) == Reshape(ParseAll(Fields(line), ParseNum).value)
  {
    var values := ParseAll(Fields(line), ParseNum).value;
    var next := Latch(current, line);
    var expected := Reshape(values);
    forall r | 0 <= r < Rows ensures next[r] == expected[r] {
      assert |next[r]| == |expected[r]|;
    }
  }

  /** Every frame in `frames` has the decoder's shape, 16 rows of 12. */
  predicate Shaped(frames: seq<Option<Grid>>)
  {
    forall j :: 0 <= j < |frames| && frames[j].Some? ==> IsGrid(frames[j].value, Cols, Rows)
  }

  /** The grid kept after a sequence of ticks with the given decoder outcomes. */
  function Replay(current: Grid, frames: seq<Option<Grid>>): (kept: Grid)
    requires Shaped(frames)
    ensures IsGrid(current, Rows, Cols) ==> IsGrid(kept, Rows, Cols)
    ensures kept == current || exists j :: 0 <= j < |frames| && frames[j].Some? && kept == Keep(current, frames[j])
    decreases frames
  {
    if frames == [] then current else Replay(Keep(current, frames[0]), frames[1..])
  }

  /** Ticks without a frame leave the kept grid unchanged. */
  lemma {:induction false} ReplayWithoutFrames(current: Grid, frames: seq<Option<Grid>>)
    requires forall j :: 0 <= j < |frames| ==> frames[j].None?
    ensures Shaped(frames) && Replay(current, frames) == current
  {
    if frames != [] {
      assert forall j :: 0 <= j < |frames[1..]| ==> frames[1..][j] == frames[j + 1];
      ReplayWithoutFrames(current, frames[1..]);
    }
  }

  /** The kept grid is the last frame, whatever came before it. */
  lemma {:induction false} ReplayKeepsLastFrame(current: Grid, frames: seq<Option<Grid>>, k: nat)
    requires Shaped(frames)
    requires k < |frames| && frames[k].Some?
    requires forall j :: k < j < |frames| ==> frames[j].None?
    ensures Replay(current, frames) == Keep(current, frames[k])
    decreases k
  {
    var next := Keep(current, frames[0]);
    var rest := frames[1..];
    assert forall j :: 0 <= j < |rest| ==> rest[j] == frames[j + 1];
    if k == 0 {
      ReplayWithoutFrames(next, rest);
    } else {
      ReplayKeepsLastFrame(next, rest, k - 1);
      assert Keep(next, frames[k]) == Keep(current, frames[k]);
    }
  }

  /** The decoder's outcome for every line. */
  function DecodeEach(lines: seq<string>): (frames: seq<Option<Grid>>)
    ensures |frames| == |lines| && Shaped(frames)
    ensures forall j :: 0 <= j < |lines| ==> frames[j] == Decode(lines[j])
  {
    seq(|lines|, j requires 0 <= j < |lines| => Decode(lines[j]))
  }

  /** The grid kept after a sequence of ticks, one line each. */
  function Run(current: Grid, lines: seq<string>): (kept: Grid)
    ensures IsGrid(current, Rows, Cols) ==> IsGrid(kept, Rows, Cols)
    ensures kept == current || exists j :: 0 <= j < |lines| && Decode(lines[j]).Some? && kept == Latch(current, lines[j])
  {
    Replay(current, DecodeEach(lines))
  }

  /** Ticks that decode no frame leave the kept grid unchanged. */
  lemma RunWithoutFrames(current: Grid, lines: seq<string>)
    requires forall j :: 0 <= j < |lines| ==> Decode(lines[j]).None?
    ensures Run(current, lines) == current
  {
    ReplayWithoutFrames(current, DecodeEach(lines));
  }

  /**
   * After a sequence of ticks the kept grid is the last decoded frame:
   * whatever came before it, and whatever undecodable lines came after it.
   */
  lemma RunKeepsLastFrame(current: Grid, lines: seq<string>, k: nat)
    requires k < |lines| && Decode(lines[k]).Some?
    requires forall j :: k < j < |lines| ==> Decode(lines[j]).None?
    ensures Run(current, lines) == Latch(current, lines[k])
  {
    ReplayKeepsLastFrame(current, DecodeEach(lines), k);
  }

  /**
   * A frame, a blank line, a line with too few fields and a second frame:
   * the kept grid is the first frame until the second one arrives.
   */
  lemma Resilience(first: seq<int>, second: seq<int>, places: nat, garbage: string)
    requires |first| == FrameSize && |second| == FrameSize
    requires |Fields(garbage)| < FrameSize
    ensures var start, one, two := Zeros(Rows, Cols), EncodeFrame(first, places), EncodeFrame(second, places);
            && Run(start, [one]) == Reshape(Reals(first, places))
            && Run(start, [one, ""]) == Reshape(Reals(first, places))
            && Run(start, [one, "", garbage]) == Reshape(Reals(first, places))
            && Run(start, [one, "", garbage, two]) == Reshape(Reals(second, places))
  {
    var start, one, two := Zeros(Rows, Cols), EncodeFrame(first, places), EncodeFrame(second, places);
    var blank: string := "";
    assert Decode(blank).None?;
    assert Decode(garbage).None?;
    KeptAfterEncoded(start, [one], 0, first, places);
    KeptAfterEncoded(start, [one, blank], 0, first, places);
    KeptAfterEncoded(start, [one, blank, garbage], 0, first, places);
    KeptAfterEncoded(start, [one, blank, garbage, two], 3, second, places);
  }

  /** The kept grid after an encoded frame followed only by undecodable lines is that frame. */
  lemma KeptAfterEncoded(start: Grid, lines: seq<string>, k: nat, values: seq<int>, places: nat)
    requires |values| == FrameSize
    requires k < |lines| && lines[k] == EncodeFrame(values, places)
    requires forall j :: k < j < |lines| ==> Decode(lines[j]).None?
    ensures Run(start, lines) == Reshape(Reals(values, places))
  {
    LatchEncodedFrame(start, values, places);
    RunKeepsLastFrame(start, lines, k);
  }

  /** Latching an encoded 192-value frame keeps its values in row-major order. */
  lemma LatchEncodedFrame(current: Grid, values: seq<int>, places: nat)
    requires |values| == FrameSize
    ensures Decode(EncodeFrame(values, places)).Some?
    ensures Latch(current, EncodeFrame(values, places)) == Reshape(Reals(values, places))
  {
    DecodeEncodeFrame(values, places);
    LatchIsRowMajor(current, EncodeFrame(values, places));
    EncodedFields(values, places);
    NumeralValues(values, places);
  }

  /**
   * The viewer's state between ticks: the grid last latched, which the
   * `update` callback of the animation reads and replaces.
   */
  class ThermalViewer {
    var temperatureData: Grid

    ghost predicate Valid()
      reads this
    {
      IsGrid(temperatureData, Rows, Cols)
    }

    /** The grid starts as 12 x 16 zeros. */
    constructor ()
      ensures Valid()
      ensures forall r, c :: 0 <= r < Rows && 0 <= c < Cols ==> temperatureData[r][c] == 0.0
    {
      temperatureData := Zeros(Rows, Cols);
    }

    /**
     * One animation tick on the received `line`.  `reconstruct` stands for
     * the 4x bicubic zoom followed by the Gaussian blur; the image handed
     * to the display is its result clipped at the ceiling.
     */
    method Update(line: string, reconstruct: Grid -> Grid) returns (image: Grid)
      requires Valid()
      modifies this
      ensures Valid()
      ensures temperatureData == Latch(old(temperatureData), line)
      ensures image == Clip(reconstruct(temperatureData), Ceiling)
      ensures forall i, j :: 0 <= i < |image| && 0 <= j < |image[i]| ==> image[i][j] <= Ceiling
    {
      var newData := Decode(line);
      if newData.Some? {
        temperatureData := Transpose(newData.value, Cols, Rows);
      }
      var smoothed := reconstruct(temperatureData);
      image := Clip(smoothed, Ceiling);
    }
  }
}
