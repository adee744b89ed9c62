/** Small sequence helpers shared by the pixel buffer and the image serialiser. */
module Seqs {

  /** Concatenation of a sequence of sequences, first to last. */
  function Concat<T>(ss: seq<seq<T>>): seq<T>
  {
    if ss == [] then [] else ss[0] + Concat(ss[1..])
  }

  lemma {:induction false} ConcatAppend<T>(a: seq<seq<T>>, b: seq<seq<T>>)
    ensures Concat(a + b) == Concat(a) + Concat(b)
    decreases |a|
  {
    if a != [] {
      assert (a + b)[1..] == a[1..] + b;
      ConcatAppend(a[1..], b);
    } else {
      assert a + b == b;
    }
  }

  /** Every row of `rows` has exactly `w` entries. */
  predicate Uniform<T>(rows: seq<seq<T>>, w: nat)
  {
    forall j :: 0 <= j < |rows| ==> |rows[j]| == w
  }

  /** Rows of equal width flatten to `|rows| * w` entries, and entry (y, x) lands at `y * w + x`. */
  lemma {:induction false} ConcatUniform<T>(rows: seq<seq<T>>, w: nat, y: nat, x: nat)
    requires Uniform(rows, w)
    requires y < |rows| && x < w
    ensures |Concat(rows)| == |rows| * w
    ensures y * w + x < |Concat(rows)|
    ensures Concat(rows)[y * w + x] == rows[y][x]
    decreases y
  {
    ConcatLength(rows, w);
    if y == 0 {
      assert Concat(rows) == rows[0] + Concat(rows[1..]);
    } else {
      ConcatUniform(rows[1..], w, y - 1, x);
      assert Concat(rows) == rows[0] + Concat(rows[1..]);
      assert y * w + x == w + ((y - 1) * w + x);
    }
  }

  lemma {:induction false} ConcatLength<T>(rows: seq<seq<T>>, w: nat)
    requires Uniform(rows, w)
    ensures |Concat(rows)| == |rows| * w
    decreases |rows|
  {
    if rows != [] {
      ConcatLength(rows[1..], w);
      assert |rows| * w == w + (|rows| - 1) * w;
    }
  }
}
