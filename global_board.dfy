/** The board of candidate lists of src/global_board.rs: a fixed 10×10 array
    of cells, each a list of candidate values, with indexed access and a
    row-major iterator whose position is its state. */
module GlobalBoards {

  datatype Option<T> = None | Some(value: T)

  /** The side of the board's fixed array. */
  const BoardSize := 10

  /** The candidate list that holds every digit 1..9. */
  const AllDigits: seq<int> := [1, 2, 3, 4, 5, 6, 7, 8, 9]

  /** The cell (x, y) of a board built from `input`: the given value when the
      input has one there, every digit otherwise. */
  function InitialCell(input: seq<seq<int>>, x: int, y: int): (cell: seq<int>)
    requires 0 <= x && 0 <= y
  {
    if x < |input| && y < |input[x]| then [input[x][y]] else AllDigits
  }

  /** Every cell of a freshly built board is non-empty: either a single given
      value or all nine digits. */
  lemma InitialCellShape(input: seq<seq<int>>, x: int, y: int)
    requires 0 <= x && 0 <= y
    ensures InitialCell(input, x, y) != []
    ensures |InitialCell(input, x, y)| == 1 || InitialCell(input, x, y) == AllDigits
  {
  }

  class GlobalBoard {
    var data: array2<seq<int>>
    var size: nat

    ghost predicate Valid()
      reads this
    {
      data.Length0 == BoardSize && data.Length1 == BoardSize && size == BoardSize
    }

    /** new: cell (x, y) becomes [input[x][y]] where the input reaches, and
        [1, ..., 9] elsewhere. */
    constructor (input: seq<seq<int>>)
      ensures Valid() && fresh(data)
      ensures forall x, y :: 0 <= x < BoardSize && 0 <= y < BoardSize ==> data[x, y] == InitialCell(input, x, y)
    {
      var cells := new seq<int>[BoardSize, BoardSize];
      for x := 0 to BoardSize
        invariant forall x', y' :: 0 <= x' < x && 0 <= y' < BoardSize ==> cells[x', y'] == InitialCell(input, x', y')
      {
        for y := 0 to BoardSize
          invariant forall x', y' :: 0 <= x' < x && 0 <= y' < BoardSize ==> cells[x', y'] == InitialCell(input, x', y')
          invariant forall y' :: 0 <= y' < y ==> cells[x, y'] == InitialCell(input, x, y')
        {
          if x < |input| {
            if y < |input[x]| {
              cells[x, y] := [input[x][y]];
            } else {
              cells[x, y] := AllDigits;
            }
          } else {
            cells[x, y] := AllDigits;
          }
        }
      }
      data := cells;
      size := BoardSize;
    }

    /** size: every board is 10×10. */
    function Size(): (n: nat)
      reads this
      requires Valid()
      ensures n == BoardSize && n == data.Length0 && n == data.Length1
    {
      size
    }

    /** board[(x, y)]: read access to a cell. */
    function Cell(x: nat, y: nat): (cell: seq<int>)
      reads this, data
      requires Valid() && x < BoardSize && y < BoardSize
    {
      data[x, y]
    }

    /** board[(x, y)] = cell: write access to one cell; every other cell keeps
        its candidates. */
    method SetCell(x: nat, y: nat, cell: seq<int>)
      requires Valid() && x < BoardSize && y < BoardSize
      modifies data
      ensures Valid()
      ensures Cell(x, y) == cell
      ensures forall x', y' :: 0 <= x' < BoardSize && 0 <= y' < BoardSize && (x' != x || y' != y) ==>
        Cell(x', y') == old(Cell(x', y'))
    {
      data[x, y] := cell;
    }

    /** iter: an iterator standing on (0, 0). */
    method Iter() returns (it: GlobalBoardIterator)
      requires Valid()
      ensures fresh(it) && it.board == this && it.x == 0 && it.y == 0
    {
      it := new GlobalBoardIterator(this);
    }

    /** Draining the iterator yields every cell exactly once, in row-major
        order: the item at position x * 10 + y is (x, y, the cell (x, y)). */
    method Entries() returns (items: seq<(nat, nat, seq<int>)>)
      requires Valid()
      ensures |items| == BoardSize * BoardSize
      ensures forall x, y :: 0 <= x < BoardSize && 0 <= y < BoardSize ==>
        items[x * BoardSize + y] == (x, y, Cell(x, y))
    {
      var it := Iter();
      items := [];
      while true
        invariant it.board == this && Valid()
        invariant it.y < BoardSize && it.x * BoardSize + it.y == |items| <= BoardSize * BoardSize
        invariant forall x, y :: 0 <= x < BoardSize && 0 <= y < BoardSize && x * BoardSize + y < |items| ==>
          items[x * BoardSize + y] == (x, y, data[x, y])
        decreases BoardSize * BoardSize - |items|
      {
        var next := it.Next();
        if next.None? {
          break;
        }
        items := items + [next.value];
      }
    }
  }

  /** The iterator over a board: its position (x, y) is its whole state. */
  class GlobalBoardIterator {
    const board: GlobalBoard
    var x: nat
    var y: nat

    constructor (board: GlobalBoard)
      requires board.Valid()
      ensures this.board == board && x == 0 && y == 0
    {
      this.board := board;
      x, y := 0, 0;
    }

    /** next: once the position is off the board, None, and the position stays;
        otherwise the item at the position, and the position moves to the
        next cell in row-major order (one further in x * size + y). */
    method Next() returns (item: Option<(nat, nat, seq<int>)>)
      requires board.Valid()
      modifies this
      ensures if old(x) >= board.size || old(y) >= board.size then
          item == None && x == old(x) && y == old(y)
        else
          item == Some((old(x), old(y), board.data[old(x), old(y)])) &&
          x * board.size + y == old(x) * board.size + old(y) + 1 &&
          y < board.size
    {
      if x >= board.size || y >= board.size {
        return None;
      }
      item := Some((x, y, board.data[x, y]));
      if y + 1 >= board.size {
        x := x + 1;
        y := 0;
      } else {
        y := y + 1;
      }
    }
  }
}
