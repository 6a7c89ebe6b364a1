/** `struct Matrix`: the d x d block the encoder and decoder work on in place. */
module Grid {
  import opened Bits
  import opened Geometry
  import opened Block

  class Matrix {
    const dimension: nat
    const capacity: nat
    const matrix: array2<int>

    ghost predicate Valid()
      reads this
    {
      dimension > 0 && matrix.Length0 == dimension && matrix.Length1 == dimension
      && capacity == dimension * dimension
    }

    /** `matrix_initialize(dimension)`: a zeroed dimension x dimension block. */
    constructor (dimension: nat)
      requires dimension > 0
      ensures Valid() && this.dimension == dimension && fresh(matrix)
      ensures Cells() == seq(dimension * dimension, _ => 0)
    {
      this.dimension := dimension;
      capacity := dimension * dimension;
      matrix := new int[dimension, dimension]((_, _) => 0);
      new;
      CellsFromGrid(seq(dimension * dimension, _ => 0));
    }

    /** The block's cells in row-major order: cell k is [k / d][k % d]. */
    ghost function Cells(): (c: seq<int>)
      reads this, matrix
      requires Valid()
      ensures |c| == capacity
    {
      seq(capacity, k reads this, matrix =>
        if 0 <= k && k / dimension < dimension then matrix[k / dimension, k % dimension] else 0)
    }

    /** Cell [i][j] is cell i * d + j of Cells(). */
    lemma CellsAt(i: nat, j: nat)
      requires Valid() && i < dimension && j < dimension
      ensures Cells()[Lin(dimension, i, j)] == matrix[i, j]
    {
      LinSplit(dimension, i, j);
      assert Lin(dimension, i, j) / dimension < dimension;
    }

    /** `matrix->matrix[i][j] = v`: cell i * d + j becomes v. */
    method Set(i: nat, j: nat, v: int)
      requires Valid() && i < dimension && j < dimension
      modifies matrix
      ensures Cells() == old(Cells())[Lin(dimension, i, j) := v]
    {
      ghost var c := Cells();
      matrix[i, j] := v;
      LinSplit(dimension, i, j);
      forall k | 0 <= k < capacity ensures Cells()[k] == c[Lin(dimension, i, j) := v][k] {
        Split(dimension, k);
        assert Cells()[k] == matrix[k / dimension, k % dimension];
      }
    }

    /** A grid agreeing with s cell by cell has Cells() == s. */
    lemma CellsFromGrid(s: seq<int>)
      requires Valid() && |s| == capacity
      requires forall i, j :: 0 <= i < dimension && 0 <= j < dimension ==> matrix[i, j] == s[Lin(dimension, i, j)]
      ensures Cells() == s
    {
      forall k | 0 <= k < capacity ensures Cells()[k] == s[k] {
        Split(dimension, k);
        var i, j := k / dimension, k % dimension;
        assert Cells()[k] == matrix[i, j];
        assert matrix[i, j] == s[Lin(dimension, i, j)];
      }
    }
  }
}
