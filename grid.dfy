/** The shape rules between the flat sample stream and the square height
    grid: the side length `int(math.sqrt(count))`, numpy's row-major
    `reshape(n, n)` and `flatten()`, and the reduction of a multi-channel
    image to its first channel. */
module Grid {
  import opened Common

  /** The integer square root: the largest side whose square fits in `n`
      (`int(math.sqrt(n))` for every count a file of realistic size has). */
  function Isqrt(n: nat): nat
  {
    IsqrtFrom(n, 0, 1)
  }

  /** Counts the side up from `k`, keeping `next == (k + 1)²` by adding
      odd numbers, until the next square exceeds `n`. */
  function IsqrtFrom(n: nat, k: nat, next: nat): nat
    requires k < next
    decreases n - k
  {
    if n < next then k else IsqrtFrom(n, k + 1, next + 2 * k + 3)
  }

  lemma {:induction false} IsqrtFromBounds(n: nat, k: nat, next: nat)
    requires next == (k + 1) * (k + 1) && k * k <= n
    decreases n - k
    ensures IsqrtFrom(n, k, next) * IsqrtFrom(n, k, next) <= n
    ensures n < (IsqrtFrom(n, k, next) + 1) * (IsqrtFrom(n, k, next) + 1)
  {
    if next <= n {
      assert next + 2 * k + 3 == (k + 2) * (k + 2);
      IsqrtFromBounds(n, k + 1, next + 2 * k + 3);
    }
  }

  /** `Isqrt(n)` is the floor of the square root of `n`. */
  lemma IsqrtBounds(n: nat)
    ensures Isqrt(n) * Isqrt(n) <= n < (Isqrt(n) + 1) * (Isqrt(n) + 1)
  {
    IsqrtFromBounds(n, 0, 1);
  }

  /** `k` is the side of a square of `n` cells. */
  predicate IsSquareOf(k: nat, n: nat)
  {
    k * k == n
  }

  /** A table of `rows` rows of `cols` cells each. */
  predicate IsGrid<T>(g: seq<seq<T>>, rows: nat, cols: nat)
  {
    |g| == rows && forall r :: 0 <= r < rows ==> |g[r]| == cols
  }

  /** Cuts a flat sequence into consecutive rows of `cols` cells. */
  function Rows<T>(flat: seq<T>, rows: nat, cols: nat): seq<seq<T>>
    requires |flat| == rows * cols
  {
    if rows == 0 then []
    else
      assert |flat[cols..]| == (rows - 1) * cols;
      [flat[..cols]] + Rows(flat[cols..], rows - 1, cols)
  }

  /** numpy's `reshape(rows, cols)`: succeeds only when the sizes agree. */
  function Reshape<T>(flat: seq<T>, rows: nat, cols: nat): Result<seq<seq<T>>>
  {
    if |flat| == rows * cols then Ok(Rows(flat, rows, cols)) else Err(ShapeError(|flat|))
  }

  /** `reshape(row_length, row_length)` with `row_length = int(sqrt(count))`. */
  function SquareReshape<T>(flat: seq<T>): Result<seq<seq<T>>>
  {
    Reshape(flat, Isqrt(|flat|), Isqrt(|flat|))
  }

  /** numpy's `flatten()`: the rows one after another. */
  function Flatten<T>(g: seq<seq<T>>): seq<T>
  {
    if g == [] then [] else g[0] + Flatten(g[1..])
  }

  /** A single-channel image, or an image whose every pixel holds `depth`
      channel values (an RGB or RGBA EXR as `imread` returns it). */
  datatype Image =
    | Plane(pixels: seq<seq<real>>)
    | Layered(depth: nat, texels: seq<seq<seq<real>>>)

  /** A layered image is a proper 3-dimensional array: every pixel has the
      same number of channels. */
  predicate WellFormed(img: Image)
  {
    img.Layered? ==>
      forall r, c :: 0 <= r < |img.texels| && 0 <= c < |img.texels[r]| ==>
        |img.texels[r][c]| == img.depth
  }

  /** `exr_data[:, :, 0]` for a 3-dimensional image, the image itself for a
      2-dimensional one. Indexing channel 0 of a channel-less image fails. */
  function FirstChannel(img: Image): (r: Result<seq<seq<real>>>)
    requires WellFormed(img)
    ensures img.Plane? ==> r == Ok(img.pixels)
    ensures img.Layered? && img.depth == 0 ==> r == Err(ChannelIndexError)
    ensures img.Layered? && img.depth > 0 ==>
      r.Ok? && |r.value| == |img.texels| &&
      forall i :: 0 <= i < |img.texels| ==>
        |r.value[i]| == |img.texels[i]| &&
        forall j :: 0 <= j < |img.texels[i]| ==> r.value[i][j] == img.texels[i][j][0]
  {
    match img
    case Plane(p) => Ok(p)
    case Layered(d, t) =>
      if d == 0 then Err(ChannelIndexError)
      else Ok(seq(|t|, i requires 0 <= i < |t| =>
                seq(|t[i]|, j requires 0 <= j < |t[i]| => t[i][j][0])))
  }

  /** The side length is unique: any `r` with r² <= n < (r+1)² is `Isqrt(n)`. */
  lemma IsqrtUnique(n: nat, r: nat)
    requires r * r <= n < (r + 1) * (r + 1)
    ensures Isqrt(n) == r
  {
    var s := Isqrt(n);
    IsqrtBounds(n);
    if s < r {
      SquareMonotone(s + 1, r);
    } else if r < s {
      SquareMonotone(r + 1, s);
    }
  }

  lemma SquareMonotone(a: nat, b: nat)
    requires a <= b
    ensures a * a <= b * b
  {
    assert a * a <= a * b <= b * b;
  }

  /** `count == n * n` for `n = Isqrt(count)` exactly when `count` is a
      perfect square at all. */
  lemma PerfectSquareIff(n: nat)
    ensures IsSquareOf(Isqrt(n), n) <==> exists k: nat :: IsSquareOf(k, n)
  {
    IsqrtBounds(n);
    if k: nat :| IsSquareOf(k, n) {
      assert k * k <= n < (k + 1) * (k + 1);
      IsqrtUnique(n, k);
    }
  }

  /** Cell (r, c) of a `rows` x `cols` grid has a row-major position
      inside the flat sequence. */
  lemma CellIndexBound(rows: nat, cols: nat, r: nat, c: nat)
    requires r < rows && c < cols
    ensures r * cols + c < rows * cols
  {
    assert r * cols + c < r * cols + cols == (r + 1) * cols;
    assert (r + 1) * cols <= rows * cols;
  }

  /** The reshape has `rows` rows of `cols` cells. */
  lemma {:induction false} RowsShape<T>(flat: seq<T>, rows: nat, cols: nat)
    requires |flat| == rows * cols
    ensures IsGrid(Rows(flat, rows, cols), rows, cols)
  {
    if rows > 0 {
      assert (rows - 1) * cols + cols == rows * cols;
      RowsShape(flat[cols..], rows - 1, cols);
    }
  }

  /** Cell (r, c) of the reshape is the flat element `r * cols + c`. */
  lemma {:induction false} RowsCell<T>(flat: seq<T>, rows: nat, cols: nat, r: nat, c: nat)
    requires |flat| == rows * cols && r < rows && c < cols
    ensures IsGrid(Rows(flat, rows, cols), rows, cols)
    ensures r * cols + c < |flat| && Rows(flat, rows, cols)[r][c] == flat[r * cols + c]
  {
    RowsShape(flat, rows, cols);
    CellIndexBound(rows, cols, r, c);
    assert (rows - 1) * cols + cols == rows * cols;
    var rest := flat[cols..];
    if r > 0 {
      RowsShape(rest, rows - 1, cols);
      RowsCell(rest, rows - 1, cols, r - 1, c);
      assert (r - 1) * cols + cols == r * cols;
      assert Rows(flat, rows, cols)[r] == Rows(rest, rows - 1, cols)[r - 1];
    }
  }

  /** Flattening a `rows` x `cols` grid gives `rows * cols` cells. */
  lemma {:induction false} FlattenLength<T>(g: seq<seq<T>>, rows: nat, cols: nat)
    requires IsGrid(g, rows, cols)
    ensures |Flatten(g)| == rows * cols
  {
    if rows > 0 {
      FlattenLength(g[1..], rows - 1, cols);
    }
  }

  /** Flatten undoes reshape: `flatten(reshape(xs, rows, cols)) == xs`. */
  lemma {:induction false} FlattenRows<T>(flat: seq<T>, rows: nat, cols: nat)
    requires |flat| == rows * cols
    ensures Flatten(Rows(flat, rows, cols)) == flat
  {
    if rows > 0 {
      var rest := flat[cols..];
      assert |rest| == (rows - 1) * cols;
      FlattenRows(rest, rows - 1, cols);
      var g := Rows(flat, rows, cols);
      assert g[0] == flat[..cols] && g[1..] == Rows(rest, rows - 1, cols);
      assert flat == flat[..cols] + rest;
    }
  }

  /** Reshape undoes flatten: `reshape(flatten(g), rows, cols) == g` for a
      `rows` x `cols` grid. */
  lemma {:induction false} RowsFlatten<T>(g: seq<seq<T>>, rows: nat, cols: nat)
    requires IsGrid(g, rows, cols)
    ensures |Flatten(g)| == rows * cols
    ensures Rows(Flatten(g), rows, cols) == g
  {
    FlattenLength(g, rows, cols);
    if rows > 0 {
      var tail := g[1..];
      assert IsGrid(tail, rows - 1, cols);
      RowsFlatten(tail, rows - 1, cols);
      var flat := Flatten(g);
      assert flat == g[0] + Flatten(tail);
      assert flat[..cols] == g[0] && flat[cols..] == Flatten(tail);
      assert g == [g[0]] + tail;
    }
  }

  /** Row-major flatten: cell (r, c) of a `rows` x `cols` grid lands at
      position `r * cols + c`. */
  lemma FlattenAt<T>(g: seq<seq<T>>, rows: nat, cols: nat, r: nat, c: nat)
    requires IsGrid(g, rows, cols) && r < rows && c < cols
    ensures r * cols + c < |Flatten(g)| && Flatten(g)[r * cols + c] == g[r][c]
  {
    RowsFlatten(g, rows, cols);
    RowsCell(Flatten(g), rows, cols, r, c);
  }

  /** The square reshape succeeds exactly when the count is a perfect
      square; any other count is a ShapeError carrying the count, not a
      truncation. */
  lemma SquareReshapeOk<T>(flat: seq<T>)
    ensures SquareReshape(flat).Ok? <==> exists k: nat :: k * k == |flat|
    ensures SquareReshape(flat).Err? ==> SquareReshape(flat).error == ShapeError(|flat|)
  {
    PerfectSquareIff(|flat|);
    if k: nat :| k * k == |flat| {
      assert IsSquareOf(k, |flat|);
    }
    if SquareReshape(flat).Ok? {
      assert IsSquareOf(Isqrt(|flat|), |flat|);
    }
  }

  /** A successful square reshape is an n x n grid with
      `grid[r][c] == flat[r * n + c]`. */
  lemma SquareReshapeAt<T>(flat: seq<T>, n: nat, r: nat, c: nat)
    requires n == Isqrt(|flat|) && |flat| == n * n && r < n && c < n
    ensures SquareReshape(flat).Ok? && IsGrid(SquareReshape(flat).value, n, n)
    ensures r * n + c < |flat| && SquareReshape(flat).value[r][c] == flat[r * n + c]
  {
    assert SquareReshape(flat) == Ok(Rows(flat, n, n));
    RowsCell(flat, n, n, r, c);
  }

  /** Every cell of a reshape is an element of the flat sequence. */
  lemma {:induction false} RowsMembers<T>(flat: seq<T>, rows: nat, cols: nat)
    requires |flat| == rows * cols
    ensures forall r, c :: 0 <= r < |Rows(flat, rows, cols)| && 0 <= c < |Rows(flat, rows, cols)[r]| ==>
      Rows(flat, rows, cols)[r][c] in flat
  {
    if rows > 0 {
      assert (rows - 1) * cols + cols == rows * cols;
      var rest := flat[cols..];
      RowsMembers(rest, rows - 1, cols);
      var g := Rows(flat, rows, cols);
      assert g == [flat[..cols]] + Rows(rest, rows - 1, cols);
      forall r, c | 0 <= r < |g| && 0 <= c < |g[r]| ensures g[r][c] in flat {
        if r == 0 {
          assert g[r][c] == flat[c];
        } else {
          assert g[r] == Rows(rest, rows - 1, cols)[r - 1];
          assert g[r][c] in rest;
        }
      }
    }
  }

  /** Every cell of a successful square reshape is an element of the flat
      sequence: reshaping moves values, it never makes new ones. */
  lemma SquareReshapeCells<T>(flat: seq<T>)
    ensures SquareReshape(flat).Ok? ==>
      forall r, c :: 0 <= r < |SquareReshape(flat).value| && 0 <= c < |SquareReshape(flat).value[r]| ==>
        SquareReshape(flat).value[r][c] in flat
  {
    var n := Isqrt(|flat|);
    if |flat| == n * n {
      assert SquareReshape(flat) == Ok(Rows(flat, n, n));
      RowsMembers(flat, n, n);
    }
  }

  /** An element of a flattened grid is an element of one of its rows, and
      every element of every row is in the flattened grid. */
  lemma {:induction false} FlattenMembers<T>(g: seq<seq<T>>, x: T)
    ensures x in Flatten(g) <==> exists r :: 0 <= r < |g| && x in g[r]
  {
    if g != [] {
      FlattenMembers(g[1..], x);
      assert Flatten(g) == g[0] + Flatten(g[1..]);
      if x in g[0] {
        assert 0 < |g| && x in g[0];
      }
      if r :| 1 <= r < |g| && x in g[r] {
        assert g[1..][r - 1] == g[r];
      }
      if r :| 0 <= r < |g| - 1 && x in g[1..][r] {
        assert g[r + 1] == g[1..][r];
      }
    }
  }

  /** The square reshape of a flattened n x n grid gives the grid back. */
  lemma SquareReshapeFlatten<T>(g: seq<seq<T>>, n: nat)
    requires IsGrid(g, n, n)
    ensures SquareReshape(Flatten(g)) == Ok(g)
  {
    RowsFlatten(g, n, n);
    IsqrtUnique(n * n, n);
    assert (n + 1) * (n + 1) == n * n + 2 * n + 1;
  }

  /** Four values reshape into two rows of two. */
  lemma SquareOfFour<T>(h: seq<T>)
    requires |h| == 4
    ensures SquareReshape(h) == Ok([[h[0], h[1]], [h[2], h[3]]])
  {
    assert Isqrt(4) == 2 by {
      IsqrtUnique(4, 2);
    }
    var rest := h[2..];
    assert Rows(h, 2, 2) == [h[..2]] + Rows(rest, 1, 2);
    assert Rows(rest, 1, 2) == [rest[..2]] + Rows(rest[2..], 0, 2);
    assert h[..2] == [h[0], h[1]] && rest[..2] == [h[2], h[3]] && Rows(rest[2..], 0, 2) == [];
    assert SquareReshape(h) == Ok(Rows(h, 2, 2));
    assert [[h[0], h[1]]] + ([[h[2], h[3]]] + []) == [[h[0], h[1]], [h[2], h[3]]];
  }
}
