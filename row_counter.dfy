/**
 * The number of outcome rows shown on the input form: it starts at one,
 * and the add-row and remove-row buttons change it by one within fixed
 * bounds.
 */
module Session {

  const MinRows: int := 1
  const MaxRows: int := 10

  /** The row count after an add-row click. */
  function AfterAdd(n: int): (m: int)
    ensures m == n || m == n + 1
    ensures m == n + 1 <==> n < MaxRows
    ensures n <= MaxRows ==> m <= MaxRows
  {
    if n < MaxRows then n + 1 else n
  }

  /** The row count after a remove-row click. */
  function AfterRemove(n: int): (m: int)
    ensures m == n || m == n - 1
    ensures m == n - 1 <==> n > MinRows
    ensures n >= MinRows ==> m >= MinRows
  {
    if n > MinRows then n - 1 else n
  }

  /** Inside the bounds, a remove undoes an add and an add undoes a remove. */
  lemma AddRemoveUndo(n: int)
    ensures MinRows <= n < MaxRows ==> AfterRemove(AfterAdd(n)) == n
    ensures MinRows < n <= MaxRows ==> AfterAdd(AfterRemove(n)) == n
  {
  }

  /** The session's row counter. */
  class RowCounter {
    var numRows: int

    /** A fresh session shows one row. */
    constructor ()
      ensures numRows == MinRows
    {
      numRows := MinRows;
    }

    method AddRow()
      modifies this
      ensures MinRows <= old(numRows) <= MaxRows ==> MinRows <= numRows <= MaxRows
      ensures numRows == AfterAdd(old(numRows))
    {
      if numRows < MaxRows {
        numRows := numRows + 1;
      }
    }

    method RemoveRow()
      modifies this
      ensures MinRows <= old(numRows) <= MaxRows ==> MinRows <= numRows <= MaxRows
      ensures numRows == AfterRemove(old(numRows))
    {
      if numRows > MinRows {
        numRows := numRows - 1;
      }
    }
  }
}
