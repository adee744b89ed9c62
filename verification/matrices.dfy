/**
 * Storage of the fixed-size matrix `Matrix<ROWS, COLS>`: ROWS rows of COLS
 * entries. The dimensions are const generics in the source and fields here.
 */
module Matrices {

  datatype Matrix = Matrix(rows: nat, cols: nat, data: seq<seq<real>>)

  /** The storage has exactly `rows` rows of `cols` entries each. */
  predicate WellShaped(m: Matrix)
  {
    |m.data| == m.rows && forall i :: 0 <= i < m.rows ==> |m.data[i]| == m.cols
  }

  /** `Matrix::new`: every entry 0.0, for any shape, square or not. */
  function New(rows: nat, cols: nat): (m: Matrix)
    ensures WellShaped(m) && m.rows == rows && m.cols == cols
    ensures forall i, j :: 0 <= i < rows && 0 <= j < cols ==> m.data[i][j] == 0.0
  {
    Matrix(rows, cols, seq(rows, _ => seq(cols, _ => 0.0)))
  }

  /** `Matrix::new_init`: the supplied entries, unaltered. The shape is the caller's array type. */
  function NewInit(rows: nat, cols: nat, data: seq<seq<real>>): (m: Matrix)
    requires |data| == rows && forall i :: 0 <= i < rows ==> |data[i]| == cols
    ensures WellShaped(m) && m.rows == rows && m.cols == cols
    ensures forall i, j :: 0 <= i < rows && 0 <= j < cols ==> m.data[i][j] == data[i][j]
  {
    Matrix(rows, cols, data)
  }

  /** The entries the Rust implementation's tests read back. */
  lemma NewInitExamples()
    ensures var m := NewInit(2, 2, [[1.0, 2.0], [3.0, 4.0]]);
            m.data[0][0] == 1.0 && m.data[0][1] == 2.0 && m.data[1][0] == 3.0 && m.data[1][1] == 4.0
    ensures var m := New(3, 2);
            m.data[2][1] == 0.0 && m.data[0][0] == 0.0
  {
  }
}
