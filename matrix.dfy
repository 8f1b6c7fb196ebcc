/**
 * A dense matrix stored as one flat buffer in row-major order (matrix.h, matrix.c).
 *
 * The logical cell (i, j) lives at linear offset i * numCols + j. The module
 * first gives the value-level picture (the offset map, the 2-D grid of rows and
 * the conversions between a grid and its flat buffer), then the Matrix class,
 * whose methods are proved against that picture.
 */
module DenseMatrix {

  /** Largest value of a C `int`: extents and offsets are C ints. */
  const INT_MAX: int := 0x7fff_ffff

  /** The row-major offset used by getElement and setElement: an in-range cell lies in the slice of its row. */
  function Offset(cols: nat, i: int, j: int): (k: int)
    ensures 0 <= i && 0 <= j < cols ==> i * cols <= k < (i + 1) * cols
  {
    i * cols + j
  }

  /** An in-range cell has an offset inside the buffer, bounded below by the row start. */
  lemma OffsetInBounds(rows: nat, cols: nat, i: int, j: int)
    requires 0 <= i < rows && 0 <= j < cols
    ensures 0 <= i * cols <= Offset(cols, i, j) < rows * cols
  {
    assert (i + 1) * cols <= rows * cols by {
      MulMonotone(i + 1, rows, cols);
    }
    assert i * cols + cols == (i + 1) * cols;
  }

  /** Every in-range cell of a rows-by-cols matrix has its offset inside the buffer. */
  lemma AllOffsetsInBounds(rows: nat, cols: nat)
    ensures forall i, j :: 0 <= i < rows && 0 <= j < cols ==> 0 <= Offset(cols, i, j) < rows * cols
  {
    forall i, j | 0 <= i < rows && 0 <= j < cols
      ensures 0 <= Offset(cols, i, j) < rows * cols
    {
      OffsetInBounds(rows, cols, i, j);
    }
  }

  /** Helper: multiplying by a non-negative number keeps the order. */
  lemma MulMonotone(a: int, b: int, c: nat)
    requires a <= b
    ensures a * c <= b * c
  {
  }

  /** The row-major map is injective on in-range columns, so distinct cells never share storage. */
  lemma OffsetInjective(cols: nat, i: int, j: int, i': int, j': int)
    requires 0 <= i && 0 <= i'
    requires 0 <= j < cols && 0 <= j' < cols
    requires Offset(cols, i, j) == Offset(cols, i', j')
    ensures i == i' && j == j'
  {
    assert (i + 1) * cols == i * cols + cols;
    assert (i' + 1) * cols == i' * cols + cols;
    if i < i' {
      MulMonotone(i + 1, i', cols);
      assert false;
    } else if i' < i {
      MulMonotone(i' + 1, i, cols);
      assert false;
    }
  }

  /** The offset map is inverted by division and remainder by the column count. */
  lemma OffsetRowCol(cols: nat, i: int, j: int)
    requires 0 <= i && 0 <= j < cols
    ensures Offset(cols, i, j) / cols == i && Offset(cols, i, j) % cols == j
  {
    var k := Offset(cols, i, j);
    var q, r := k / cols, k % cols;
    assert k == q * cols + r && 0 <= r < cols;
    assert q >= 0 by {
      if q < 0 {
        MulMonotone(q, -1, cols);
        assert false;
      }
    }
    OffsetInjective(cols, i, j, q, r);
  }

  /** Every buffer index is the offset of exactly the cell (k / cols, k % cols). */
  lemma OffsetCovers(rows: nat, cols: nat, k: int)
    requires 0 <= k < rows * cols
    ensures cols > 0 && 0 <= k / cols < rows && 0 <= k % cols < cols
    ensures Offset(cols, k / cols, k % cols) == k
  {
  }

  /** `g` has `rows` rows of `cols` cells each. */
  ghost predicate IsGrid<T>(g: seq<seq<T>>, rows: nat, cols: nat)
  {
    |g| == rows && forall i :: 0 <= i < rows ==> |g[i]| == cols
  }

  /** The flat buffer of a grid: its rows one after another. */
  function Flatten<T>(g: seq<seq<T>>): seq<T>
  {
    if g == [] then [] else g[0] + Flatten(g[1..])
  }

  /** The grid view of a row-major buffer: row i is the slice of `cols` cells starting at i * cols. */
  function Unflatten<T>(cells: seq<T>, rows: nat, cols: nat): (g: seq<seq<T>>)
    requires |cells| == rows * cols
    ensures IsGrid(g, rows, cols)
  {
    if rows == 0 then []
    else
      assert rows * cols == cols + (rows - 1) * cols;
      [cells[..cols]] + Unflatten(cells[cols..], rows - 1, cols)
  }

  /** A grid of `rows` rows of `cols` cells flattens to exactly rows * cols cells. */
  lemma {:induction false} FlattenLength<T>(g: seq<seq<T>>, rows: nat, cols: nat)
    requires IsGrid(g, rows, cols)
    ensures |Flatten(g)| == rows * cols
  {
    if rows > 0 {
      FlattenLength(g[1..], rows - 1, cols);
      assert rows * cols == cols + (rows - 1) * cols;
    }
  }

  /** Cell (i, j) of a grid sits at the row-major offset of its flat buffer. */
  lemma {:induction false} FlattenAt<T>(g: seq<seq<T>>, rows: nat, cols: nat, i: int, j: int)
    requires IsGrid(g, rows, cols)
    requires 0 <= i < rows && 0 <= j < cols
    ensures 0 <= Offset(cols, i, j) < |Flatten(g)| == rows * cols
    ensures Flatten(g)[Offset(cols, i, j)] == g[i][j]
  {
    OffsetInBounds(rows, cols, i, j);
    FlattenLength(g, rows, cols);
    var rest := Flatten(g[1..]);
    assert Flatten(g) == g[0] + rest;
    assert |g[0]| == cols;
    if i == 0 {
      assert Offset(cols, i, j) == j;
    } else {
      assert IsGrid(g[1..], rows - 1, cols);
      FlattenAt(g[1..], rows - 1, cols, i - 1, j);
      var k := Offset(cols, i - 1, j);
      assert i * cols == cols + (i - 1) * cols;
      assert Offset(cols, i, j) == cols + k;
      assert g[1..][i - 1] == g[i];
    }
  }

  /** Cell (i, j) of the grid view is the buffer cell at the row-major offset. */
  lemma {:induction false} UnflattenAt<T>(cells: seq<T>, rows: nat, cols: nat, i: int, j: int)
    requires |cells| == rows * cols
    requires 0 <= i < rows && 0 <= j < cols
    ensures 0 <= Offset(cols, i, j) < |cells|
    ensures Unflatten(cells, rows, cols)[i][j] == cells[Offset(cols, i, j)]
  {
    OffsetInBounds(rows, cols, i, j);
    assert rows * cols == cols + (rows - 1) * cols;
    if i > 0 {
      UnflattenAt(cells[cols..], rows - 1, cols, i - 1, j);
      assert Offset(cols, i, j) == cols + Offset(cols, i - 1, j);
    }
  }

  /** Reading the grid view back row by row gives the buffer unchanged. */
  lemma {:induction false} FlattenUnflatten<T>(cells: seq<T>, rows: nat, cols: nat)
    requires |cells| == rows * cols
    ensures Flatten(Unflatten(cells, rows, cols)) == cells
  {
    if rows > 0 {
      assert rows * cols == cols + (rows - 1) * cols;
      var g := Unflatten(cells, rows, cols);
      assert g[1..] == Unflatten(cells[cols..], rows - 1, cols);
      FlattenUnflatten(cells[cols..], rows - 1, cols);
      assert cells == cells[..cols] + cells[cols..];
    }
  }

  /** Flattening a grid and viewing the buffer as a grid again gives the grid unchanged. */
  lemma {:induction false} UnflattenFlatten<T>(g: seq<seq<T>>, rows: nat, cols: nat)
    requires IsGrid(g, rows, cols)
    ensures |Flatten(g)| == rows * cols
    ensures Unflatten(Flatten(g), rows, cols) == g
  {
    FlattenLength(g, rows, cols);
    if rows > 0 {
      FlattenLength(g[1..], rows - 1, cols);
      UnflattenFlatten(g[1..], rows - 1, cols);
      var f := Flatten(g);
      assert f == g[0] + Flatten(g[1..]);
      assert f[..cols] == g[0];
      assert f[cols..] == Flatten(g[1..]);
      assert g == [g[0]] + g[1..];
    }
  }

  /** The grid with cell (i, j) replaced by v and every other cell as before. */
  function SetCell<T>(g: seq<seq<T>>, i: int, j: int, v: T): (g': seq<seq<T>>)
    requires 0 <= i < |g| && 0 <= j < |g[i]|
    ensures |g'| == |g| && forall i' :: 0 <= i' < |g| ==> |g'[i']| == |g[i']|
    ensures g'[i][j] == v
    ensures forall i', j' :: 0 <= i' < |g| && 0 <= j' < |g[i']| && (i', j') != (i, j) ==>
              g'[i'][j'] == g[i'][j']
  {
    g[i := g[i][j := v]]
  }

  /** Two writes to one cell: the last one wins. */
  lemma SetCellLastWins<T>(g: seq<seq<T>>, i: int, j: int, v: T, w: T)
    requires 0 <= i < |g| && 0 <= j < |g[i]|
    ensures SetCell(SetCell(g, i, j, v), i, j, w) == SetCell(g, i, j, w)
  {
    var a, b := SetCell(SetCell(g, i, j, v), i, j, w), SetCell(g, i, j, w);
    assert a[i] == b[i];
  }

  /**
   * Overwriting the buffer at the row-major offset of (i, j) changes exactly
   * cell (i, j) of the grid view and nothing else.
   */
  lemma UnflattenUpdate<T>(cells: seq<T>, rows: nat, cols: nat, i: int, j: int, v: T)
    requires |cells| == rows * cols
    requires 0 <= i < rows && 0 <= j < cols
    ensures 0 <= Offset(cols, i, j) < |cells|
    ensures Unflatten(cells[Offset(cols, i, j) := v], rows, cols)
            == SetCell(Unflatten(cells, rows, cols), i, j, v)
  {
    OffsetInBounds(rows, cols, i, j);
    var k := Offset(cols, i, j);
    var cells' := cells[k := v];
    var a := Unflatten(cells', rows, cols);
    var b := SetCell(Unflatten(cells, rows, cols), i, j, v);
    forall i' | 0 <= i' < rows
      ensures a[i'] == b[i']
    {
      forall j' | 0 <= j' < cols
        ensures a[i'][j'] == b[i'][j']
      {
        UnflattenAt(cells', rows, cols, i', j');
        UnflattenAt(cells, rows, cols, i', j');
        if (i', j') != (i, j) {
          if Offset(cols, i', j') == k {
            OffsetInjective(cols, i', j', i, j);
          }
        }
      }
    }
  }

  /**
   * The heap object behind `Matrix *`: the extents and the data buffer that
   * makeMatrix allocates and that getElement and setElement index.
   */
  class Matrix<T(0)> {
    var numRows: nat
    var numCols: nat
    var data: array<T>

    /**
     * The buffer holds exactly numRows * numCols cells and the extents are C
     * ints; then every in-range cell has an offset inside the buffer that fits
     * a C int.
     */
    ghost predicate Valid()
      reads this
      ensures Valid() ==> forall i, j :: 0 <= i < numRows && 0 <= j < numCols ==>
                0 <= Offset(numCols, i, j) < data.Length && Offset(numCols, i, j) <= INT_MAX
    {
      AllOffsetsInBounds(numRows, numCols);
      data.Length == numRows * numCols &&
      numRows <= INT_MAX && numCols <= INT_MAX && numRows * numCols <= INT_MAX
    }

    /** The matrix as a grid of rows, read from the buffer in row-major order. */
    ghost function Grid(): (g: seq<seq<T>>)
      reads this, data
      requires Valid()
      ensures IsGrid(g, numRows, numCols)
      ensures Flatten(g) == data[..]
    {
      FlattenUnflatten(data[..], numRows, numCols);
      Unflatten(data[..], numRows, numCols)
    }

    /** makeMatrix: fresh extents and a fresh buffer of numRows * numCols cells of unspecified contents. */
    constructor (numRows: nat, numCols: nat)
      requires numRows <= INT_MAX && numCols <= INT_MAX && numRows * numCols <= INT_MAX
      ensures Valid() && fresh(data)
      ensures this.numRows == numRows && this.numCols == numCols
      ensures data.Length == numRows * numCols
    {
      data := new T[numRows * numCols];
      this.numRows := numRows;
      this.numCols := numCols;
    }

    /** getElement: the value of cell (i, j); it reads the matrix and changes nothing. */
    function GetElement(i: int, j: int): (v: T)
      reads this, data
      requires Valid()
      requires 0 <= i < numRows && 0 <= j < numCols
      ensures v == Grid()[i][j]
    {
      UnflattenAt(data[..], numRows, numCols, i, j);
      data[Offset(numCols, i, j)]
    }

    /**
     * setElement: overwrites the one buffer cell of (i, j); in the grid view
     * exactly cell (i, j) changes, and the extents and the buffer stay the same.
     */
    method SetElement(i: int, j: int, v: T)
      requires Valid()
      requires 0 <= i < numRows && 0 <= j < numCols
      modifies data
      ensures Valid()
      ensures Offset(numCols, i, j) < data.Length
      ensures data[..] == old(data[..])[Offset(numCols, i, j) := v]
      ensures Grid() == SetCell(old(Grid()), i, j, v)
      ensures GetElement(i, j) == v
    {
      OffsetInBounds(numRows, numCols, i, j);
      ghost var before := data[..];
      data[Offset(numCols, i, j)] := v;
      assert data[..] == before[Offset(numCols, i, j) := v];
      UnflattenUpdate(before, numRows, numCols, i, j, v);
    }

    /**
     * printMatrix: the nested row/column loops. `printed` is the stream of
     * values in the order they are printed, `offsets` the buffer offsets read:
     * 0, 1, ..., numRows * numCols - 1, each once and in increasing order, so
     * the printed values are exactly the buffer.
     */
    method PrintMatrix() returns (printed: seq<T>, ghost offsets: seq<int>)
      requires Valid()
      ensures |offsets| == data.Length
      ensures forall k :: 0 <= k < |offsets| ==> offsets[k] == k
      ensures printed == data[..]
      ensures printed == Flatten(Grid())
    {
      printed, offsets := [], [];
      var i := 0;
      while i < numRows
        invariant 0 <= i <= numRows
        invariant i * numCols <= data.Length
        invariant printed == data[..i * numCols]
        invariant |offsets| == i * numCols
        invariant forall k :: 0 <= k < |offsets| ==> offsets[k] == k
      {
        var j := 0;
        while j < numCols
          invariant 0 <= j <= numCols
          invariant i * numCols + j <= data.Length
          invariant printed == data[..i * numCols + j]
          invariant |offsets| == i * numCols + j
          invariant forall k :: 0 <= k < |offsets| ==> offsets[k] == k
        {
          OffsetInBounds(numRows, numCols, i, j);
          printed := printed + [GetElement(i, j)];
          offsets := offsets + [Offset(numCols, i, j)];
          assert data[..i * numCols + j + 1] == data[..i * numCols + j] + [data[i * numCols + j]];
          j := j + 1;
        }
        assert i * numCols + numCols == (i + 1) * numCols;
        i := i + 1;
      }
      assert data[..numRows * numCols] == data[..];
    }
  }
}
