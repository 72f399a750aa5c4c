/** midtermproblem3.py and midtermproblem4.py: an integer `Matrix` whose constructor
    checks the given dimensions against the rows it is handed, with element access and
    update through Python list indexing, and `SquareMatrix`, which passes one size for
    both dimensions. */
module Matrices {
  import opened Options

  datatype Error = ValueError | IndexError

  /** The constructor's check: as many rows as `rows`, each of length `cols`. */
  predicate Consistent(rows: int, cols: int, elements: seq<seq<int>>) {
    |elements| == rows && forall r :: 0 <= r < |elements| ==> |elements[r]| == cols
  }

  /** Python list indexing into a list of length n: indices -n .. -1 count from the end,
      anything else outside 0 .. n - 1 is out of range. */
  function Resolve(n: nat, i: int): (k: Option<nat>)
    ensures k.Some? <==> 0 <= i + n && i < n
    ensures k.Some? ==> k.value < n && k.value == (if i >= 0 then i else i + n)
  {
    if 0 <= i < n then Some(i) else if 0 <= i + n && i < 0 then Some(i + n) else None
  }

  /** The entry at a row and column, when Python's indexing of the rows accepts both. */
  function Cell(data: seq<seq<int>>, row: int, col: int): (p: Option<(nat, nat)>)
    ensures p.Some? ==> p.value.0 < |data| && p.value.1 < |data[p.value.0]|
  {
    match Resolve(|data|, row)
    case None => None
    case Some(r) =>
      match Resolve(|data[r]|, col)
      case None => None
      case Some(c) => Some((r, c))
  }

  /** The entry at a row and column, or IndexError when the indexing rejects either. */
  function Entry(data: seq<seq<int>>, row: int, col: int): (v: Result<int, Error>)
    ensures v.Success? <==> Cell(data, row, col).Some?
    ensures v.Success? ==> v.value == data[Cell(data, row, col).value.0][Cell(data, row, col).value.1]
    ensures v.Failure? ==> v.error == IndexError
  {
    match Cell(data, row, col)
    case None => Failure(IndexError)
    case Some(p) => Success(data[p.0][p.1])
  }

  /** The rows with the one entry at an accepted row and column replaced. */
  function Updated(data: seq<seq<int>>, row: int, col: int, val: int): (d: seq<seq<int>>)
    requires Cell(data, row, col).Some?
    ensures |d| == |data| && forall r :: 0 <= r < |d| ==> |d[r]| == |data[r]|
  {
    var p := Cell(data, row, col).value;
    data[p.0 := data[p.0][p.1 := val]]
  }

  /** After an update the entry reads back as the new value, and every index naming
      another entry reads as before. */
  lemma EntryAfterUpdate(data: seq<seq<int>>, row: int, col: int, val: int, row2: int, col2: int)
    requires Cell(data, row, col).Some?
    ensures Entry(Updated(data, row, col, val), row2, col2) ==
              if Cell(data, row2, col2) == Cell(data, row, col) then Success(val) else Entry(data, row2, col2)
  {
    var d := Updated(data, row, col, val);
    assert Cell(d, row2, col2) == Cell(data, row2, col2);
  }

  /** An update keeps the matrix consistent with its dimensions. */
  lemma UpdatedConsistent(rows: int, cols: int, data: seq<seq<int>>, row: int, col: int, val: int)
    requires Cell(data, row, col).Some?
    ensures Consistent(rows, cols, data) ==> Consistent(rows, cols, Updated(data, row, col, val))
  {
  }

  class Matrix {
    var rows: int
    var cols: int
    var data: seq<seq<int>>

    ghost predicate Valid()
      reads this
    {
      Consistent(rows, cols, data)
    }

    constructor (rows: int, cols: int, elements: seq<seq<int>>)
      requires Consistent(rows, cols, elements)
      ensures Valid() && this.rows == rows && this.cols == cols && data == elements
    {
      this.rows := rows;
      this.cols := cols;
      data := elements;
    }

    /** `Matrix(rows, cols, elements)`: ValueError unless the elements have the given
        dimensions. */
    static method Create(rows: int, cols: int, elements: seq<seq<int>>) returns (r: Result<Matrix, Error>)
      ensures r.Success? <==> Consistent(rows, cols, elements)
      ensures r.Failure? ==> r.error == ValueError
      ensures r.Success? ==>
                fresh(r.value) && r.value.Valid() &&
                r.value.rows == rows && r.value.cols == cols && r.value.data == elements
    {
      if |elements| != rows || exists k :: 0 <= k < |elements| && |elements[k]| != cols {
        return Failure(ValueError);
      }
      var m := new Matrix(rows, cols, elements);
      return Success(m);
    }

    /** `SquareMatrix(size, elements)`: a matrix with size rows and size columns. */
    static method CreateSquare(size: int, elements: seq<seq<int>>) returns (r: Result<Matrix, Error>)
      ensures r.Success? <==> Consistent(size, size, elements)
      ensures r.Failure? ==> r.error == ValueError
      ensures r.Success? ==>
                fresh(r.value) && r.value.Valid() &&
                r.value.rows == size && r.value.cols == size && r.value.data == elements
    {
      r := Create(size, size, elements);
    }

    /** `get_element(row, col)`: the entry the indices name, or IndexError. */
    function GetElement(row: int, col: int): (v: Result<int, Error>)
      reads this
      ensures v.Success? <==> Cell(data, row, col).Some?
      ensures v.Success? ==> v.value == data[Cell(data, row, col).value.0][Cell(data, row, col).value.1]
      ensures v.Failure? ==> v.error == IndexError
    {
      Entry(data, row, col)
    }

    /** `set_element(row, col, val)`: the one entry the indices name takes the value;
        IndexError, and no change, when they name none. */
    method SetElement(row: int, col: int, val: int) returns (r: Result<(), Error>)
      modifies this`data
      ensures r.Success? <==> Cell(old(data), row, col).Some?
      ensures r.Success? ==> data == Updated(old(data), row, col, val)
      ensures r.Failure? ==> data == old(data) && r.error == IndexError
      ensures old(Valid()) ==> Valid()
    {
      if Cell(data, row, col).None? {
        return Failure(IndexError);
      }
      UpdatedConsistent(rows, cols, data, row, col, val);
      data := Updated(data, row, col, val);
      r := Success(());
    }
  }

  /** midtermproblem3.py's run: entry (0, 0) of [[1, 2], [3, 4]] is 1, and setting it to
      100 gives [[100, 2], [3, 4]]; the 3 x 3 matrix is accepted, a ragged one is not. */
  method Problem3Example() returns (before: Result<int, Error>, after: seq<seq<int>>, square: bool, ragged: bool)
    ensures before == Success(1) && after == [[100, 2], [3, 4]]
    ensures square && !ragged
  {
    var m1 := Matrix.Create(2, 2, [[1, 2], [3, 4]]);
    assert m1.Success?;
    assert Cell([[1, 2], [3, 4]], 0, 0) == Some((0, 0));
    before := m1.value.GetElement(0, 0);
    var ok := m1.value.SetElement(0, 0, 100);
    after := m1.value.data;
    assert after == [[1, 2], [3, 4]][0 := [1, 2][0 := 100]];
    assert after[0] == [100, 2] && after[1] == [3, 4];
    var m2 := Matrix.Create(3, 3, [[1, 2, 3], [4, 5, 6], [7, 8, 9]]);
    square := m2.Success?;
    assert square;
    var m3 := Matrix.Create(2, 2, [[1, 2], [3]]);
    assert |[[1, 2], [3]][1]| != 2;
    ragged := m3.Success?;
  }

  /** midtermproblem4.py's run: entry (1, 1) of the square [[1, 2], [3, 4]] is 4, and
      setting (0, 1) to 9 gives [[1, 9], [3, 4]]. */
  method Problem4Example() returns (corner: Result<int, Error>, after: seq<seq<int>>)
    ensures corner == Success(4) && after == [[1, 9], [3, 4]]
  {
    var sq := Matrix.CreateSquare(2, [[1, 2], [3, 4]]);
    assert sq.Success?;
    assert Cell([[1, 2], [3, 4]], 1, 1) == Some((1, 1));
    assert Cell([[1, 2], [3, 4]], 0, 1) == Some((0, 1));
    corner := sq.value.GetElement(1, 1);
    var ok := sq.value.SetElement(0, 1, 9);
    after := sq.value.data;
    assert after == [[1, 2], [3, 4]][0 := [1, 2][1 := 9]];
    assert after[0] == [1, 9] && after[1] == [3, 4];
  }
}
