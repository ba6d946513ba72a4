/** Boards as values: the square grid of cells behind a game position, the
    configuration string a position is stored under in the memoization table,
    and what it means for a symbol to have a winning line. The board object
    in TicTacToe is specified against these definitions. */
module Grids {

  /** A board as a sequence of rows of cells. */
  type Grid = seq<seq<char>>

  /** The character of a free cell. */
  const Blank: char := ' '

  /** Every row is as long as there are rows. */
  predicate IsSquare(g: Grid)
  {
    forall i :: 0 <= i < |g| ==> |g[i]| == |g|
  }

  /** The board of size n with every cell free. */
  function EmptyGrid(n: nat): (g: Grid)
    ensures |g| == n && IsSquare(g)
    ensures forall i, j :: 0 <= i < n && 0 <= j < n ==> g[i][j] == Blank
  {
    seq(n, i => seq(n, j => Blank))
  }

  /** The board g with cell (r, c) overwritten by symbol s. */
  function Place(g: Grid, r: int, c: int, s: char): (h: Grid)
    requires 0 <= r < |g| && 0 <= c < |g[r]|
    ensures |h| == |g| && (IsSquare(g) ==> IsSquare(h))
  {
    g[r := g[r][c := s]]
  }

  /** No cell of the board is free. */
  predicate IsFullGrid(g: Grid)
  {
    forall i, j :: 0 <= i < |g| && 0 <= j < |g[i]| ==> g[i][j] != Blank
  }

  // ---------------------------------------------------------------------
  // Configuration strings
  // ---------------------------------------------------------------------

  /** The configuration string of a board: its cells row by row, each row
      from left to right. */
  function Encode(g: Grid): string
  {
    if g == [] then [] else Encode(g[..|g| - 1]) + g[|g| - 1]
  }

  /** The rows read back from a string of rows * n cells: its consecutive
      slices of n characters, the last slice being the last row. */
  function Decode(key: string, n: nat, rows: nat): (g: Grid)
    requires |key| == rows * n
    ensures |g| == rows && forall i :: 0 <= i < rows ==> |g[i]| == n
  {
    if rows == 0 then []
    else
      RowsStep(rows, n);
      Decode(key[..|key| - n], n, rows - 1) + [key[|key| - n..]]
  }

  /** Adding one row of n cells to rows - 1 such rows. */
  lemma RowsStep(rows: int, n: int)
    ensures rows * n == (rows - 1) * n + n
  {
  }

  /** A board whose rows all have n cells has a configuration string of
      |g| * n characters. */
  lemma {:induction false} EncodeLength(g: Grid, n: nat)
    requires forall i :: 0 <= i < |g| ==> |g[i]| == n
    ensures |Encode(g)| == |g| * n
  {
    if g != [] {
      EncodeLength(g[..|g| - 1], n);
      RowsStep(|g|, n);
    }
  }

  /** Cell (i, j) sits at position i * n + j of the configuration string. */
  lemma {:induction false} EncodeAt(g: Grid, n: nat, i: int, j: int)
    requires forall k :: 0 <= k < |g| ==> |g[k]| == n
    requires 0 <= i < |g| && 0 <= j < n
    ensures i * n + j < |Encode(g)| && Encode(g)[i * n + j] == g[i][j]
  {
    var p := g[..|g| - 1];
    EncodeLength(p, n);
    EncodeLength(g, n);
    if i < |g| - 1 {
      EncodeAt(p, n, i, j);
    }
  }

  /** Reading back the configuration string of a board whose rows all have
      n cells gives the board. */
  lemma {:induction false} DecodeEncode(g: Grid, n: nat)
    requires forall i :: 0 <= i < |g| ==> |g[i]| == n
    ensures |Encode(g)| == |g| * n && Decode(Encode(g), n, |g|) == g
  {
    EncodeLength(g, n);
    if g != [] {
      var p := g[..|g| - 1];
      EncodeLength(p, n);
      DecodeEncode(p, n);
      var key := Encode(g);
      assert key[..|key| - n] == Encode(p);
      assert key[|key| - n..] == g[|g| - 1];
      assert g == p + [g[|g| - 1]];
    }
  }

  /** Every string of rows * n cells is the configuration string of the
      rows read back from it. */
  lemma {:induction false} EncodeDecode(key: string, n: nat, rows: nat)
    requires |key| == rows * n
    ensures Encode(Decode(key, n, rows)) == key
  {
    if rows > 0 {
      RowsStep(rows, n);
      var front, last := key[..|key| - n], key[|key| - n..];
      var rest := Decode(front, n, rows - 1);
      EncodeDecode(front, n, rows - 1);
      var g := Decode(key, n, rows);
      assert g == rest + [last];
      assert g[..|g| - 1] == rest;
      assert Encode(g) == Encode(rest) + last;
      assert key == front + last;
    }
  }

  /** Boards of different sizes have strings of different lengths. */
  lemma SquaresDiffer(n: nat, m: nat)
    requires n < m
    ensures n * n < m * m
  {
    assert m * m == n * n + (m - n) * (m + n);
    assert (m - n) * (m + n) > 0;
  }

  /** Two square boards have the same configuration string exactly when they
      are the same board: the string identifies the position. */
  lemma EncodeInjective(g: Grid, h: Grid)
    requires IsSquare(g) && IsSquare(h)
    ensures Encode(g) == Encode(h) <==> g == h
  {
    if Encode(g) == Encode(h) {
      EncodeLength(g, |g|);
      EncodeLength(h, |h|);
      if |g| < |h| {
        SquaresDiffer(|g|, |h|);
      } else if |h| < |g| {
        SquaresDiffer(|h|, |g|);
      }
      DecodeEncode(g, |g|);
      DecodeEncode(h, |h|);
    }
  }

  /** A board is full exactly when its configuration string contains no
      free-cell character. */
  lemma {:induction false} FullIffKeyHasNoBlank(g: Grid)
    ensures IsFullGrid(g) <==> Blank !in Encode(g)
  {
    if g != [] {
      var p := g[..|g| - 1];
      FullIffKeyHasNoBlank(p);
      var last := g[|g| - 1];
      assert Blank in Encode(g) <==> Blank in Encode(p) || Blank in last;
      if !IsFullGrid(g) {
        var i, j :| 0 <= i < |g| && 0 <= j < |g[i]| && g[i][j] == Blank;
        if i < |p| {
          assert p[i][j] == Blank;
        }
      }
      if !IsFullGrid(p) {
        var i, j :| 0 <= i < |p| && 0 <= j < |p[i]| && p[i][j] == Blank;
        assert g[i][j] == Blank;
      }
      if Blank in last {
        var j :| 0 <= j < |last| && last[j] == Blank;
        assert g[|g| - 1][j] == Blank;
      }
    }
  }

  // ---------------------------------------------------------------------
  // Winning lines, declaratively
  // ---------------------------------------------------------------------

  /** The four directions a winning line can run in. */
  datatype Direction = Across | Down | DownRight | DownLeft

  /** The row of the cell t steps from row r in direction d. */
  function RowAt(r: int, d: Direction, t: int): int
  {
    if d == Across then r else r + t
  }

  /** The column of the cell t steps from column c in direction d. */
  function ColAt(c: int, d: Direction, t: int): int
  {
    match d
    case Across => c + t
    case Down => c
    case DownRight => c + t
    case DownLeft => c - t
  }

  /** Cell (i, j) is on the board and holds s. */
  predicate Holds(g: Grid, i: int, j: int, s: char)
  {
    0 <= i < |g| && 0 <= j < |g[i]| && g[i][j] == s
  }

  /** The L cells from (r, c) onwards in direction d are on the board and
      all hold s. */
  predicate RunFrom(g: Grid, r: int, c: int, d: Direction, s: char, L: int)
  {
    forall t :: 0 <= t < L ==> Holds(g, RowAt(r, d, t), ColAt(c, d, t), s)
  }

  /** Symbol s has won with lines of length L: some cell holding s starts L
      consecutive cells in one direction that all hold s. When L is not
      positive, any cell holding s qualifies. */
  ghost predicate HasRun(g: Grid, s: char, L: int)
  {
    exists r, c, d :: Holds(g, r, c, s) && RunFrom(g, r, c, d, s, L)
  }

  // ---------------------------------------------------------------------
  // Winning lines as the engine scans them
  // ---------------------------------------------------------------------

  /** The smaller of a and b. */
  function Min(a: int, b: int): int
  {
    if a < b then a else b
  }

  /** The cells the engine scans from cell (r, c) in direction d: the whole
      row r going across, the whole column c going down, and the cells from
      (r, c) towards the lower right or the lower left up to the board's
      edge on the diagonals. */
  function Line(g: Grid, d: Direction, r: int, c: int): seq<char>
    requires IsSquare(g) && 0 <= r < |g| && 0 <= c < |g|
  {
    var n := |g|;
    match d
    case Across => g[r]
    case Down => seq(n, k requires 0 <= k < n => g[k][c])
    case DownRight => seq(Min(n - r, n - c), k requires 0 <= k < Min(n - r, n - c) => g[r + k][c + k])
    case DownLeft => seq(Min(n - r, c + 1), k requires 0 <= k < Min(n - r, c + 1) => g[r + k][c - k])
  }

  /** Step k of the scan from (r, c) towards the lower right is cell
      (r + k, c + k); it is on the board exactly when k is a position of the
      scanned line, which is no longer than the board's side. */
  lemma DownRightStep(g: Grid, r: int, c: int, k: int)
    requires IsSquare(g) && 0 <= r < |g| && 0 <= c < |g| && 0 <= k
    ensures var line := Line(g, DownRight, r, c);
      && |line| <= |g|
      && (r + k < |g| && c + k < |g| <==> k < |line|)
      && (k < |line| ==> line[k] == g[r + k][c + k])
  {
  }

  /** Step k of the scan from (r, c) towards the lower left is cell
      (r + k, c - k); it is on the board exactly when k is a position of the
      scanned line, which is no longer than the board's side. */
  lemma DownLeftStep(g: Grid, r: int, c: int, k: int)
    requires IsSquare(g) && 0 <= r < |g| && 0 <= c < |g| && 0 <= k
    ensures var line := Line(g, DownLeft, r, c);
      && |line| <= |g|
      && (r + k < |g| && c - k >= 0 <==> k < |line|)
      && (k < |line| ==> line[k] == g[r + k][c - k])
  {
  }

  /** The L cells of p ending at position e all hold s. When L is not
      positive this only asks that e be a position of p. */
  predicate RunEndsAt(p: seq<char>, e: int, s: char, L: int)
  {
    0 <= e < |p| && e + 1 >= L && forall t :: e - L < t <= e ==> p[t] == s
  }

  /** Some L consecutive cells of p all hold s. */
  ghost predicate HasRunIn(p: seq<char>, s: char, L: int)
  {
    exists e :: RunEndsAt(p, e, s, L)
  }

  /** The number of copies of s at the end of p: the counter the engine's
      scans keep, which grows on a match and drops to 0 otherwise. */
  function TrailingRun(p: seq<char>, s: char): nat
  {
    if p == [] then 0
    else if p[|p| - 1] == s then TrailingRun(p[..|p| - 1], s) + 1
    else 0
  }

  /** The counter is the length of the block of copies of s that ends p:
      those cells hold s and the one before them, if any, does not. */
  lemma {:induction false} TrailingRunShape(p: seq<char>, s: char)
    ensures TrailingRun(p, s) <= |p|
    ensures forall t :: |p| - TrailingRun(p, s) <= t < |p| ==> p[t] == s
    ensures TrailingRun(p, s) < |p| ==> p[|p| - 1 - TrailingRun(p, s)] != s
  {
    if p != [] && p[|p| - 1] == s {
      var q := p[..|p| - 1];
      TrailingRunShape(q, s);
      assert forall t :: 0 <= t < |q| ==> p[t] == q[t];
    }
  }

  /** The counter has reached L exactly when the L cells ending p hold s. */
  lemma TrailingRunIsRunEnd(p: seq<char>, s: char, L: int)
    requires |p| > 0
    ensures TrailingRun(p, s) >= L <==> RunEndsAt(p, |p| - 1, s, L)
  {
    TrailingRunShape(p, s);
    var n := TrailingRun(p, s);
  }

  /** One more cell scanned: p has a run exactly when the prefix before the
      last cell had one or the counter has just reached L. */
  lemma ScanStep(p: seq<char>, s: char, L: int)
    requires |p| > 0
    ensures HasRunIn(p, s, L) <==> HasRunIn(p[..|p| - 1], s, L) || TrailingRun(p, s) >= L
  {
    var q := p[..|p| - 1];
    TrailingRunIsRunEnd(p, s, L);
    if HasRunIn(p, s, L) {
      var e :| RunEndsAt(p, e, s, L);
      if e < |q| {
        assert RunEndsAt(q, e, s, L);
      }
    }
    if HasRunIn(q, s, L) {
      var e :| RunEndsAt(q, e, s, L);
      assert RunEndsAt(p, e, s, L);
    }
  }

  /** A run in a prefix is a run in the whole line. */
  lemma PrefixRun(p: seq<char>, k: int, s: char, L: int)
    requires 0 <= k <= |p| && HasRunIn(p[..k], s, L)
    ensures HasRunIn(p, s, L)
  {
    var e :| RunEndsAt(p[..k], e, s, L);
    assert RunEndsAt(p, e, s, L);
  }

  /** The state of the engine's running-counter scan along line after it
      has visited positions 0 .. k - 1 (all of line once k passes its end):
      count is the number of copies of s ending the visited cells, and those
      cells hold no run of L. */
  ghost predicate Scanning(line: seq<char>, k: int, s: char, L: int, count: int)
  {
    0 <= k &&
    var seen := line[..Min(k, |line|)];
    count == TrailingRun(seen, s) && !HasRunIn(seen, s, L)
  }

  /** Nothing visited: the counter starts at 0. */
  lemma ScanStart(line: seq<char>, s: char, L: int)
    ensures Scanning(line, 0, s, L, 0)
  {
    assert line[..0] == [];
  }

  /** Visiting position k: the counter becomes next, and either it reaches L,
      in which case line has a run, or the scan goes on past k. */
  lemma ScanAdvance(line: seq<char>, k: int, s: char, L: int, count: int, next: int)
    requires Scanning(line, k, s, L, count) && k < |line|
    requires next == if line[k] == s then count + 1 else 0
    ensures next >= L ==> HasRunIn(line, s, L)
    ensures next < L ==> Scanning(line, k + 1, s, L, next)
  {
    var p := line[..k + 1];
    assert p[..k] == line[..k];
    ScanStep(p, s, L);
    if next >= L {
      PrefixRun(line, k + 1, s, L);
    }
  }

  /** A position past the end of line changes nothing. */
  lemma ScanSkip(line: seq<char>, k: int, s: char, L: int, count: int)
    requires Scanning(line, k, s, L, count) && k >= |line|
    ensures Scanning(line, k + 1, s, L, count)
  { }

  /** A scan that has passed the end of line without reaching L found no
      run in line. */
  lemma ScanDone(line: seq<char>, k: int, s: char, L: int, count: int)
    requires Scanning(line, k, s, L, count) && k >= |line|
    ensures !HasRunIn(line, s, L)
  {
    assert line[..|line|] == line;
  }

  /** The engine's test at cell (i, j): the cell holds s and one of the four
      lines it scans from there holds L consecutive copies of s. */
  ghost predicate AnchorWins(g: Grid, s: char, L: int, i: int, j: int)
    requires IsSquare(g)
  {
    && 0 <= i < |g| && 0 <= j < |g| && g[i][j] == s
    && (|| HasRunIn(Line(g, Across, i, j), s, L)
        || HasRunIn(Line(g, Down, i, j), s, L)
        || HasRunIn(Line(g, DownRight, i, j), s, L)
        || HasRunIn(Line(g, DownLeft, i, j), s, L))
  }

  /** A run found on a scanned line is a winning line of the board. */
  lemma LineRunIsRun(g: Grid, s: char, L: int, d: Direction, i: int, j: int)
    requires IsSquare(g) && 0 <= i < |g| && 0 <= j < |g| && g[i][j] == s
    requires HasRunIn(Line(g, d, i, j), s, L)
    ensures HasRun(g, s, L)
  {
    var line := Line(g, d, i, j);
    var e :| RunEndsAt(line, e, s, L);
    if L <= 0 {
      assert Holds(g, i, j, s) && RunFrom(g, i, j, Across, s, L);
    } else {
      var b := e - L + 1;
      var r, c := RowAt(i, d, b), ColAt(j, d, b);
      if d == Across {
        c := b;
      } else if d == Down {
        r := b;
      }
      forall t | 0 <= t < L
        ensures Holds(g, RowAt(r, d, t), ColAt(c, d, t), s)
      {
        assert line[b + t] == s;
      }
      assert Holds(g, RowAt(r, d, 0), ColAt(c, d, 0), s);
      assert Holds(g, r, c, s) && RunFrom(g, r, c, d, s, L);
    }
  }

  /** A winning line of the board from (r, c) in direction d is found by the
      scan the engine runs from (r, c) in that direction. */
  lemma RunIsLineRun(g: Grid, s: char, L: int, r: int, c: int, d: Direction)
    requires IsSquare(g) && Holds(g, r, c, s) && RunFrom(g, r, c, d, s, L)
    ensures HasRunIn(Line(g, d, r, c), s, L)
  {
    var line := Line(g, d, r, c);
    if L <= 0 {
      assert RunEndsAt(line, 0, s, L);
    } else {
      assert Holds(g, RowAt(r, d, L - 1), ColAt(c, d, L - 1), s);
      var e := match d
        case Across => c + L - 1
        case Down => r + L - 1
        case _ => L - 1;
      forall t | e - L < t <= e
        ensures line[t] == s
      {
        var u := t - (e - L + 1);
        assert Holds(g, RowAt(r, d, u), ColAt(c, d, u), s);
      }
      assert RunEndsAt(line, e, s, L);
    }
  }

  /** The engine's cell-by-cell scan decides the declarative winning
      condition: s has a winning line exactly when the test succeeds at some
      cell. */
  lemma WinIffSomeAnchor(g: Grid, s: char, L: int)
    requires IsSquare(g)
    ensures HasRun(g, s, L) <==> exists i, j :: 0 <= i < |g| && 0 <= j < |g| && AnchorWins(g, s, L, i, j)
  {
    if HasRun(g, s, L) {
      var r, c, d :| Holds(g, r, c, s) && RunFrom(g, r, c, d, s, L);
      RunIsLineRun(g, s, L, r, c, d);
      assert AnchorWins(g, s, L, r, c);
    }
    if exists i, j :: 0 <= i < |g| && 0 <= j < |g| && AnchorWins(g, s, L, i, j) {
      var i, j :| 0 <= i < |g| && 0 <= j < |g| && AnchorWins(g, s, L, i, j);
      if HasRunIn(Line(g, Across, i, j), s, L) {
        LineRunIsRun(g, s, L, Across, i, j);
      } else if HasRunIn(Line(g, Down, i, j), s, L) {
        LineRunIsRun(g, s, L, Down, i, j);
      } else if HasRunIn(Line(g, DownRight, i, j), s, L) {
        LineRunIsRun(g, s, L, DownRight, i, j);
      } else {
        LineRunIsRun(g, s, L, DownLeft, i, j);
      }
    }
  }

  // ---------------------------------------------------------------------
  // Facts about winning lines
  // ---------------------------------------------------------------------

  /** A line longer than the board's side never fits on it. */
  lemma NoRunLongerThanBoard(g: Grid, s: char, L: int)
    requires IsSquare(g) && L > |g|
    ensures !HasRun(g, s, L)
  {
    forall r, c, d | Holds(g, r, c, s)
      ensures !RunFrom(g, r, c, d, s, L)
    {
      assert !Holds(g, RowAt(r, d, |g|), ColAt(c, d, |g|), s);
    }
  }

  /** With a win length that is not positive, a symbol has won as soon as
      it occupies any cell. */
  lemma DegenerateLengthWinsOnAnyCell(g: Grid, s: char, L: int)
    requires L <= 0
    ensures HasRun(g, s, L) <==> exists i, j :: Holds(g, i, j, s)
  {
    if i, j :| Holds(g, i, j, s) {
      assert RunFrom(g, i, j, Across, s, L);
    }
  }

  /** Playing into a free cell never takes a winning line away from a
      symbol other than the free-cell character. */
  lemma PlayKeepsRun(g: Grid, r: int, c: int, t: char, s: char, L: int)
    requires 0 <= r < |g| && 0 <= c < |g[r]| && g[r][c] == Blank && s != Blank
    requires HasRun(g, s, L)
    ensures HasRun(Place(g, r, c, t), s, L)
  {
    var h := Place(g, r, c, t);
    var r0, c0, d :| Holds(g, r0, c0, s) && RunFrom(g, r0, c0, d, s, L);
    forall u | 0 <= u < L
      ensures Holds(h, RowAt(r0, d, u), ColAt(c0, d, u), s)
    {
      assert Holds(g, RowAt(r0, d, u), ColAt(c0, d, u), s);
    }
    assert Holds(h, RowAt(r0, d, 0), ColAt(c0, d, 0), s);
    assert Holds(h, r0, c0, s) && RunFrom(h, r0, c0, d, s, L);
  }

  /** After writing t into (r, c) the board is full exactly when t is not
      the free-cell character and every other cell was already taken. */
  lemma PlaceFillsOneCell(g: Grid, r: int, c: int, t: char)
    requires IsSquare(g) && 0 <= r < |g| && 0 <= c < |g|
    ensures IsFullGrid(Place(g, r, c, t)) <==>
      t != Blank && forall i, j :: 0 <= i < |g| && 0 <= j < |g| && (i, j) != (r, c) ==> g[i][j] != Blank
  {
    var h := Place(g, r, c, t);
    if IsFullGrid(h) {
      assert h[r][c] == t;
      forall i, j | 0 <= i < |g| && 0 <= j < |g| && (i, j) != (r, c)
        ensures g[i][j] != Blank
      {
        assert h[i][j] == g[i][j];
      }
    }
  }

  /** The free board of a positive size has no winning line for any symbol
      and is not full. */
  lemma EmptyBoardUndecided(n: nat, s: char, L: int)
    requires n > 0 && s != Blank
    ensures !HasRun(EmptyGrid(n), s, L) && !IsFullGrid(EmptyGrid(n))
  {
    var g := EmptyGrid(n);
    assert g[0][0] == Blank;
  }

  /** On a 3 x 3 board whose top row is all X and whose middle row starts
      with two O, X has a line of three and O has none. */
  lemma TopRowWins()
    ensures HasRun([['X', 'X', 'X'], ['O', 'O', Blank], [Blank, Blank, Blank]], 'X', 3)
    ensures !HasRun([['X', 'X', 'X'], ['O', 'O', Blank], [Blank, Blank, Blank]], 'O', 3)
  {
    var g: Grid := [['X', 'X', 'X'], ['O', 'O', Blank], [Blank, Blank, Blank]];
    assert forall t :: 0 <= t < 3 ==> Holds(g, RowAt(0, Across, t), ColAt(0, Across, t), 'X');
    assert Holds(g, 0, 0, 'X') && RunFrom(g, 0, 0, Across, 'X', 3);
    forall r, c, d | Holds(g, r, c, 'O')
      ensures !RunFrom(g, r, c, d, 'O', 3)
    {
      assert !(Holds(g, RowAt(r, d, 1), ColAt(c, d, 1), 'O') && Holds(g, RowAt(r, d, 2), ColAt(c, d, 2), 'O'));
    }
  }

  /** Writing s into the three cells of the top row of a free 3 x 3 board
      gives s a line of three and leaves every other symbol except the
      free-cell character without one. */
  lemma TopRowOfFreeBoard(s: char, o: char)
    requires s != Blank && o != Blank && o != s
    ensures var g := Place(Place(Place(EmptyGrid(3), 0, 0, s), 0, 1, s), 0, 2, s);
      HasRun(g, s, 3) && !HasRun(g, o, 3)
  {
    var g := Place(Place(Place(EmptyGrid(3), 0, 0, s), 0, 1, s), 0, 2, s);
    var free := [Blank, Blank, Blank];
    var e := EmptyGrid(3);
    assert e[0] == free && e[1] == free && e[2] == free;
    assert g[0] == [s, s, s] && g[1] == free && g[2] == free;
    assert g == [[s, s, s], free, free];
    assert forall t :: 0 <= t < 3 ==> Holds(g, RowAt(0, Across, t), ColAt(0, Across, t), s);
    assert Holds(g, 0, 0, s) && RunFrom(g, 0, 0, Across, s, 3);
    assert forall i, j :: 0 <= i < 3 && 0 <= j < 3 ==> g[i][j] != o;
  }
}
