/**
 * Numeric grids: the sensor's 12 x 16 sample layout, numpy's row-major
 * `reshape` and its inverse `ravel`, the transpose `.T`, the all-zero start
 * grid `np.zeros`, and the display ceiling `np.clip(x, None, 100)`.
 */
module Grids {

  /** A 2-D array of temperatures, as a sequence of rows. */
  type Grid = seq<seq<real>>

  /** The sensor delivers 12 rows of 16 samples per frame. */
  const Rows: nat := 12
  const Cols: nat := 16
  const FrameSize: nat := Rows * Cols

  /** The hottest value the display accepts, in degrees Celsius. */
  const Ceiling: real := 100.0

  /** `g` has `rows` rows of `cols` values each. */
  predicate IsGrid(g: Grid, rows: nat, cols: nat)
  {
    |g| == rows && forall i :: 0 <= i < rows ==> |g[i]| == cols
  }

  /** `np.zeros((rows, cols))`. */
  function Zeros(rows: nat, cols: nat): (g: Grid)
    ensures IsGrid(g, rows, cols)
    ensures forall i, j :: 0 <= i < rows && 0 <= j < cols ==> g[i][j] == 0.0
  {
    seq(rows, _ => seq(cols, _ => 0.0))
  }

  /** `np.array(values).reshape((Rows, Cols))`: rows are filled one after the other. */
  function Reshape(values: seq<real>): (g: Grid)
    requires |values| == FrameSize
    ensures IsGrid(g, Rows, Cols)
    ensures forall r, c :: 0 <= r < Rows && 0 <= c < Cols ==> g[r][c] == values[r * Cols + c]
  {
    seq(Rows, r requires 0 <= r < Rows => values[r * Cols .. r * Cols + Cols])
  }

  /** The rows of a grid one after the other (numpy's `ravel`). */
  function Flatten(g: Grid): seq<real>
  {
    if g == [] then [] else g[0] + Flatten(g[1..])
  }

  /** Value `c` of row `r` sits at position `r * Cols + c` of the flattened grid. */
  lemma {:induction false} FlattenAt(g: Grid, rows: nat)
    requires IsGrid(g, rows, Cols)
    ensures |Flatten(g)| == rows * Cols
    ensures forall r, c :: 0 <= r < rows && 0 <= c < Cols ==> Flatten(g)[r * Cols + c] == g[r][c]
  {
    if rows > 0 {
      FlattenAt(g[1..], rows - 1);
      var tail := Flatten(g[1..]);
      forall r, c | 0 <= r < rows && 0 <= c < Cols ensures Flatten(g)[r * Cols + c] == g[r][c] {
        if r > 0 {
          assert Flatten(g)[r * Cols + c] == tail[(r - 1) * Cols + c];
          assert g[1..][r - 1] == g[r];
        }
      }
    }
  }

  /** Flattening a reshaped frame gives back its values. */
  lemma FlattenReshape(values: seq<real>)
    requires |values| == FrameSize
    ensures Flatten(Reshape(values)) == values
  {
    var h := Reshape(values);
    FlattenAt(h, Rows);
    forall k | 0 <= k < FrameSize ensures Flatten(h)[k] == values[k] {
      var r, c := RowColumn(k);
      assert Flatten(h)[r * Cols + c] == h[r][c];
    }
  }

  /** The row and column of position `k` of a row-major frame. */
  lemma RowColumn(k: nat) returns (r: nat, c: nat)
    requires k < FrameSize
    ensures r < Rows && c < Cols && k == r * Cols + c
  {
    r, c := k / Cols, k % Cols;
  }

  /** Reshaping a flattened 12 x 16 grid gives back the grid. */
  lemma ReshapeFlatten(g: Grid)
    requires IsGrid(g, Rows, Cols)
    ensures |Flatten(g)| == FrameSize && Reshape(Flatten(g)) == g
  {
    FlattenAt(g, Rows);
    var h := Reshape(Flatten(g));
    forall r | 0 <= r < Rows ensures h[r] == g[r] {
      assert |h[r]| == |g[r]|;
    }
  }

  /** `g.T` for a `rows` x `cols` grid. */
  function Transpose(g: Grid, rows: nat, cols: nat): (t: Grid)
    requires IsGrid(g, rows, cols)
    ensures IsGrid(t, cols, rows)
    ensures forall i, j :: 0 <= i < rows && 0 <= j < cols ==> t[j][i] == g[i][j]
  {
    seq(cols, j requires 0 <= j < cols => seq(rows, i requires 0 <= i < rows => g[i][j]))
  }

  /** Transposing twice gives back the grid. */
  lemma TransposeTwice(g: Grid, rows: nat, cols: nat)
    requires IsGrid(g, rows, cols)
    ensures Transpose(Transpose(g, rows, cols), cols, rows) == g
  {
    var t := Transpose(Transpose(g, rows, cols), cols, rows);
    forall i | 0 <= i < rows ensures t[i] == g[i] {
      assert |t[i]| == |g[i]|;
    }
  }

  /**
   * `np.clip(g, None, hi)`: every value above `hi` becomes `hi`; values at
   * or below `hi` pass through, since there is no lower bound.
   */
  function Clip(g: Grid, hi: real): (r: Grid)
    ensures |r| == |g| && forall i :: 0 <= i < |g| ==> |r[i]| == |g[i]|
    ensures forall i, j :: 0 <= i < |g| && 0 <= j < |g[i]| ==>
              r[i][j] <= hi && r[i][j] <= g[i][j] && (r[i][j] == g[i][j] || r[i][j] == hi)
    ensures forall i, j :: 0 <= i < |g| && 0 <= j < |g[i]| && g[i][j] <= hi ==> r[i][j] == g[i][j]
  {
    seq(|g|, i requires 0 <= i < |g| =>
      seq(|g[i]|, j requires 0 <= j < |g[i]| => if g[i][j] <= hi then g[i][j] else hi))
  }

  /** Clipping an already clipped grid changes nothing. */
  lemma ClipIdempotent(g: Grid, hi: real)
    ensures Clip(Clip(g, hi), hi) == Clip(g, hi)
  {
    var once := Clip(g, hi);
    var twice := Clip(once, hi);
    forall i | 0 <= i < |g| ensures twice[i] == once[i] {
      assert |twice[i]| == |once[i]|;
    }
  }

  /** Clipping keeps the shape of a grid. */
  lemma ClipKeepsShape(g: Grid, hi: real, rows: nat, cols: nat)
    requires IsGrid(g, rows, cols)
    ensures IsGrid(Clip(g, hi), rows, cols)
  {
  }
}
