/** The game state of the engine: a square board of cells, the length of a
    winning line, and the operations the game-tree search calls on it, among
    them storing and recalling scores of positions in the memoization table. */
module TicTacToe {
  import opened Records
  import opened Chaining
  import opened Grids

  /** The symbol of the human player. */
  const Human: char := 'X'
  /** The symbol of the computer player. */
  const Computer: char := 'O'

  /** The scores the evaluation gives a position. */
  const HumanWins: int := 0
  const Undecided: int := 1
  const Draw: int := 2
  const ComputerWins: int := 3

  /** The number of buckets of the memoization table the engine creates. */
  const TableSize: nat := 7971

  class Configurations {
    /** The cells, indexed by row and column. */
    var board: array2<char>
    var boardSize: int
    var lengthToWin: int
    /** Kept for the game-tree search; no operation here reads it. */
    var maxLevels: int

    ghost predicate Valid()
      reads this
    {
      board.Length0 == boardSize && board.Length1 == boardSize
    }

    /** The board as a value. */
    ghost function Cells(): (g: Grid)
      reads this, board
      ensures |g| == board.Length0
      ensures forall i :: 0 <= i < |g| ==> |g[i]| == board.Length1
      ensures forall i, j :: 0 <= i < board.Length0 && 0 <= j < board.Length1 ==> g[i][j] == board[i, j]
      ensures Valid() ==> IsSquare(g) && |g| == boardSize
    {
      var b := board;
      seq(b.Length0, i requires 0 <= i < b.Length0 reads b =>
        seq(b.Length1, j requires 0 <= j < b.Length1 reads b => b[i, j]))
    }

    /** A board of boardSize x boardSize free cells. */
    constructor (boardSize: nat, lengthToWin: int, maxLevels: int)
      ensures Valid() && fresh(board)
      ensures this.boardSize == boardSize && this.lengthToWin == lengthToWin && this.maxLevels == maxLevels
      ensures Cells() == EmptyGrid(boardSize)
    {
      this.boardSize := boardSize;
      this.lengthToWin := lengthToWin;
      this.maxLevels := maxLevels;
      var b := new char[boardSize, boardSize];
      for i := 0 to boardSize
        invariant forall i', j :: 0 <= i' < i && 0 <= j < boardSize ==> b[i', j] == Blank
      {
        for j := 0 to boardSize
          invariant forall i', j' :: 0 <= i' < i && 0 <= j' < boardSize ==> b[i', j'] == Blank
          invariant forall j' :: 0 <= j' < j ==> b[i, j'] == Blank
        {
          b[i, j] := Blank;
        }
      }
      board := b;
      new;
      assert forall i :: 0 <= i < boardSize ==> Cells()[i] == EmptyGrid(boardSize)[i];
    }

    /** A new, empty memoization table of TableSize buckets. */
    method CreateDictionary() returns (d: HashDictionary)
      ensures fresh(d) && fresh(d.hashTable) && d.Valid()
      ensures d.hashTable.Length == TableSize && d.Contents == map[] && d.numRecords == 0
    {
      d := new HashDictionary(TableSize);
    }

    /** Writes symbol into cell (row, col), whatever the cell held; every
        other cell keeps its value. */
    method SavePlay(row: int, col: int, symbol: char)
      requires Valid() && 0 <= row < boardSize && 0 <= col < boardSize
      modifies board
      ensures Valid() && Cells() == Place(old(Cells()), row, col, symbol)
    {
      board[row, col] := symbol;
      ghost var g, h := old(Cells()), Cells();
      assert forall i :: 0 <= i < boardSize ==> h[i] == Place(g, row, col, symbol)[i];
    }

    /** Cell (row, col) is free; a board with a free cell is not full. */
    function SquareIsEmpty(row: int, col: int): (empty: bool)
      reads this, board
      requires Valid() && 0 <= row < boardSize && 0 <= col < boardSize
      ensures empty <==> Cells()[row][col] == Blank
      ensures empty ==> !IsFullGrid(Cells())
    {
      board[row, col] == Blank
    }

    /** The configuration string of the board, built cell by cell, row by
        row: the key the position is stored under. */
    method BoardKey() returns (config: string)
      requires Valid()
      ensures config == Encode(Cells())
      ensures |config| == boardSize * boardSize
    {
      ghost var g := Cells();
      config := "";
      for i := 0 to boardSize
        invariant config == Encode(g[..i])
      {
        for j := 0 to boardSize
          invariant config == Encode(g[..i]) + g[i][..j]
        {
          config := config + [board[i, j]];
          assert g[i][..j + 1] == g[i][..j] + [g[i][j]];
        }
        assert g[..i + 1][..i] == g[..i];
        assert g[i][..boardSize] == g[i];
      }
      assert g[..boardSize] == g;
      EncodeLength(g, boardSize);
    }

    /** The score stored for the current position, or the sentinel -1 when
        the position has not been stored. */
    method RepeatedConfiguration(hashTable: HashDictionary) returns (score: int)
      requires Valid() && boardSize > 0
      requires hashTable.Valid() && hashTable.hashTable.Length > 0
      ensures var key := Encode(Cells());
        score == if key in hashTable.Contents then hashTable.Contents[key] else NotFound
    {
      var config := BoardKey();
      assert boardSize * boardSize >= boardSize;
      score := hashTable.Get(config);
    }

    /** Stores score under the current position; fails, changing nothing,
        when the position is already stored. */
    method AddConfiguration(hashDictionary: HashDictionary, score: int) returns (r: Result<()>)
      requires Valid() && boardSize > 0
      requires hashDictionary.Valid() && hashDictionary.hashTable.Length > 0
      modifies hashDictionary, hashDictionary.hashTable
      ensures hashDictionary.Valid() && hashDictionary.hashTable == old(hashDictionary.hashTable)
      ensures var key := Encode(Cells());
        if key in old(hashDictionary.Contents) then
          && r == DictionaryException
          && hashDictionary.hashTable[..] == old(hashDictionary.hashTable[..])
          && hashDictionary.Contents == old(hashDictionary.Contents)
          && hashDictionary.numRecords == old(hashDictionary.numRecords)
        else
          && r == Ok(())
          && hashDictionary.Contents == old(hashDictionary.Contents)[key := score]
          && hashDictionary.numRecords == old(hashDictionary.numRecords) + 1
    {
      var config := BoardKey();
      assert boardSize * boardSize >= boardSize;
      var put := hashDictionary.Put(Data(config, score));
      if put.DictionaryException? {
        return DictionaryException;
      }
      return Ok(());
    }

    /** The row scan: whether row `row` holds lengthToWin consecutive copies
        of symbol. The column argument takes no part. */
    method HorzWin(symbol: char, row: int, col: int) returns (win: bool)
      requires Valid() && 0 <= row < boardSize && 0 <= col < boardSize
      ensures win == HasRunIn(Line(Cells(), Across, row, col), symbol, lengthToWin)
    {
      ghost var line := Line(Cells(), Across, row, col);
      var symbolSequence := 0;
      ScanStart(line, symbol, lengthToWin);
      for k := 0 to boardSize
        invariant Scanning(line, k, symbol, lengthToWin, symbolSequence)
      {
        ghost var count := symbolSequence;
        if board[row, k] == symbol {
          symbolSequence := symbolSequence + 1;
        } else {
          symbolSequence := 0;
        }
        ScanAdvance(line, k, symbol, lengthToWin, count, symbolSequence);
        if symbolSequence >= lengthToWin {
          return true;
        }
      }
      ScanDone(line, boardSize, symbol, lengthToWin, symbolSequence);
      return false;
    }

    /** The column scan: whether column `col` holds lengthToWin consecutive
        copies of symbol. The row argument takes no part. */
    method VertWin(symbol: char, row: int, col: int) returns (win: bool)
      requires Valid() && 0 <= row < boardSize && 0 <= col < boardSize
      ensures win == HasRunIn(Line(Cells(), Down, row, col), symbol, lengthToWin)
    {
      ghost var line := Line(Cells(), Down, row, col);
      var symbolSequence := 0;
      ScanStart(line, symbol, lengthToWin);
      for k := 0 to boardSize
        invariant Scanning(line, k, symbol, lengthToWin, symbolSequence)
      {
        ghost var count := symbolSequence;
        if board[k, col] == symbol {
          symbolSequence := symbolSequence + 1;
        } else {
          symbolSequence := 0;
        }
        ScanAdvance(line, k, symbol, lengthToWin, count, symbolSequence);
        if symbolSequence >= lengthToWin {
          return true;
        }
      }
      ScanDone(line, boardSize, symbol, lengthToWin, symbolSequence);
      return false;
    }

    /** The scan from (row, col) towards the lower right: whether those cells
        hold lengthToWin consecutive copies of symbol. Steps that leave the
        board are skipped. */
    method DiagRightWin(symbol: char, row: int, col: int) returns (win: bool)
      requires Valid() && 0 <= row < boardSize && 0 <= col < boardSize
      ensures win == HasRunIn(Line(Cells(), DownRight, row, col), symbol, lengthToWin)
    {
      ghost var g := Cells();
      ghost var line := Line(g, DownRight, row, col);
      var symbolSequence := 0;
      ScanStart(line, symbol, lengthToWin);
      for k := 0 to boardSize
        invariant Scanning(line, k, symbol, lengthToWin, symbolSequence)
      {
        var newRow := row + k;
        var newCol := col + k;
        DownRightStep(g, row, col, k);
        if newRow < boardSize && newCol < boardSize {
          ghost var count := symbolSequence;
          if board[newRow, newCol] == symbol {
            symbolSequence := symbolSequence + 1;
          } else {
            symbolSequence := 0;
          }
          ScanAdvance(line, k, symbol, lengthToWin, count, symbolSequence);
          if symbolSequence >= lengthToWin {
            return true;
          }
        } else {
          ScanSkip(line, k, symbol, lengthToWin, symbolSequence);
        }
      }
      DownRightStep(g, row, col, boardSize);
      ScanDone(line, boardSize, symbol, lengthToWin, symbolSequence);
      return false;
    }

    /** The scan from (row, col) towards the lower left: whether those cells
        hold lengthToWin consecutive copies of symbol. Steps that leave the
        board are skipped. */
    method DiagLeftWin(symbol: char, row: int, col: int) returns (win: bool)
      requires Valid() && 0 <= row < boardSize && 0 <= col < boardSize
      ensures win == HasRunIn(Line(Cells(), DownLeft, row, col), symbol, lengthToWin)
    {
      ghost var g := Cells();
      ghost var line := Line(g, DownLeft, row, col);
      var symbolSequence := 0;
      ScanStart(line, symbol, lengthToWin);
      for k := 0 to boardSize
        invariant Scanning(line, k, symbol, lengthToWin, symbolSequence)
      {
        var newRow := row + k;
        var newCol := col - k;
        DownLeftStep(g, row, col, k);
        if newRow < boardSize && newCol >= 0 {
          ghost var count := symbolSequence;
          if board[newRow, newCol] == symbol {
            symbolSequence := symbolSequence + 1;
          } else {
            symbolSequence := 0;
          }
          ScanAdvance(line, k, symbol, lengthToWin, count, symbolSequence);
          if symbolSequence >= lengthToWin {
            return true;
          }
        } else {
          ScanSkip(line, k, symbol, lengthToWin, symbolSequence);
        }
      }
      DownLeftStep(g, row, col, boardSize);
      ScanDone(line, boardSize, symbol, lengthToWin, symbolSequence);
      return false;
    }

    /** Whether symbol has a winning line: some lengthToWin consecutive cells
        across, down or along either diagonal all hold it. */
    method Wins(symbol: char) returns (win: bool)
      requires Valid()
      ensures win == HasRun(Cells(), symbol, lengthToWin)
    {
      ghost var g := Cells();
      for i := 0 to boardSize
        invariant forall i', j' :: 0 <= i' < i && 0 <= j' < boardSize ==> !AnchorWins(g, symbol, lengthToWin, i', j')
      {
        for j := 0 to boardSize
          invariant forall i', j' :: 0 <= i' < i && 0 <= j' < boardSize ==> !AnchorWins(g, symbol, lengthToWin, i', j')
          invariant forall j' :: 0 <= j' < j ==> !AnchorWins(g, symbol, lengthToWin, i, j')
        {
          if board[i, j] == symbol {
            var w := HorzWin(symbol, i, j);
            assert Cells() == g;
            if !w {
              w := VertWin(symbol, i, j);
              assert Cells() == g;
            }
            if !w {
              w := DiagRightWin(symbol, i, j);
              assert Cells() == g;
            }
            if !w {
              w := DiagLeftWin(symbol, i, j);
              assert Cells() == g;
            }
            assert w == AnchorWins(g, symbol, lengthToWin, i, j);
            if w {
              WinIffSomeAnchor(g, symbol, lengthToWin);
              return true;
            }
          } else {
            assert !AnchorWins(g, symbol, lengthToWin, i, j);
          }
        }
      }
      assert !exists i, j :: 0 <= i < |g| && 0 <= j < |g| && AnchorWins(g, symbol, lengthToWin, i, j);
      WinIffSomeAnchor(g, symbol, lengthToWin);
      assert g == Cells();
      return false;
    }

    /** Whether no cell is free. */
    method IsFull() returns (full: bool)
      requires Valid()
      ensures full == IsFullGrid(Cells())
    {
      for i := 0 to board.Length0
        invariant forall i', j :: 0 <= i' < i && 0 <= j < boardSize ==> board[i', j] != Blank
      {
        for j := 0 to board.Length0
          invariant forall i', j' :: 0 <= i' < i && 0 <= j' < boardSize ==> board[i', j'] != Blank
          invariant forall j' :: 0 <= j' < j ==> board[i, j'] != Blank
        {
          if board[i, j] == Blank {
            return false;
          }
        }
      }
      return true;
    }

    /** Whether the game is drawn: neither player has a winning line and no
        cell is free. */
    method IsDraw() returns (draw: bool)
      requires Valid()
      ensures draw == (!HasRun(Cells(), Human, lengthToWin) && !HasRun(Cells(), Computer, lengthToWin) && IsFullGrid(Cells()))
    {
      var x := Wins(Human);
      if x {
        return false;
      }
      var o := Wins(Computer);
      if o {
        return false;
      }
      draw := IsFull();
    }

    /** The score of the position: a computer win outranks a human win, which
        outranks a draw; every other position is undecided. */
    method EvalBoard() returns (score: int)
      requires Valid()
      ensures score in {HumanWins, Undecided, Draw, ComputerWins}
      ensures var g, L := Cells(), lengthToWin;
        && (score == ComputerWins <==> HasRun(g, Computer, L))
        && (score == HumanWins <==> !HasRun(g, Computer, L) && HasRun(g, Human, L))
        && (score == Draw <==> !HasRun(g, Computer, L) && !HasRun(g, Human, L) && IsFullGrid(g))
        && (score == Undecided <==> !HasRun(g, Computer, L) && !HasRun(g, Human, L) && !IsFullGrid(g))
    {
      var o := Wins(Computer);
      if o {
        return ComputerWins;
      }
      var x := Wins(Human);
      if x {
        return HumanWins;
      }
      var draw := IsDraw();
      if draw {
        return Draw;
      }
      return Undecided;
    }
  }

  /** Storing a score for a position not yet in the table and then looking
      the position up gives that score back. */
  method StoreThenRecall(c: Configurations, d: HashDictionary, score: int) returns (added: Result<()>, recalled: int)
    requires c.Valid() && c.boardSize > 0 && d.Valid() && d.hashTable.Length > 0
    requires Encode(c.Cells()) !in d.Contents
    modifies d, d.hashTable
    ensures added == Ok(()) && recalled == score
    ensures d.Valid() && d.Contents == old(d.Contents)[Encode(c.Cells()) := score]
  {
    added := c.AddConfiguration(d, score);
    recalled := c.RepeatedConfiguration(d);
  }

  /** On a new board of positive size the evaluation is undecided. */
  method NewBoardIsUndecided(n: nat, L: int) returns (score: int)
    requires n > 0
    ensures score == Undecided
  {
    var c := new Configurations(n, L, 0);
    EmptyBoardUndecided(n, Human, L);
    EmptyBoardUndecided(n, Computer, L);
    score := c.EvalBoard();
  }

  /** Filling the whole top row of a new 3 x 3 board with one player's
      symbol, with lines of three needed to win: that player has won, the
      other has not, and the evaluation gives that player's win code. */
  method TopRowGame(s: char) returns (won: bool, otherWon: bool, score: int)
    requires s == Human || s == Computer
    ensures won && !otherWon
    ensures score == if s == Computer then ComputerWins else HumanWins
  {
    var c := new Configurations(3, 3, 0);
    c.SavePlay(0, 0, s);
    c.SavePlay(0, 1, s);
    c.SavePlay(0, 2, s);
    var other := if s == Human then Computer else Human;
    TopRowOfFreeBoard(s, other);
    won := c.Wins(s);
    otherWon := c.Wins(other);
    score := c.EvalBoard();
  }
}
