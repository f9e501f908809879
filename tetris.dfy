/**
 * Tetris board logic: a 20-row by 10-column board of cells (0 is empty),
 * a falling block with a rectangular shape and a position, the collision
 * test, placing a landed block, clearing full rows, scoring, the speed
 * adjustment and the current/next/queue hand-off of blocks.
 */
module Tetris {

  const Height: int := 20
  const Width: int := 10
  const InitialGameSpeed: int := 500

  /** The three shapes a new block is drawn from: O, I and L. */
  const Shapes: seq<seq<seq<int>>> := [[[1, 1], [1, 1]], [[1, 1, 1, 1]], [[1, 0], [1, 1]]]

  /** A non-empty rectangular shape. */
  predicate Rect(s: seq<seq<int>>) {
    |s| > 0 && |s[0]| > 0 && forall i :: 0 <= i < |s| ==> |s[i]| == |s[0]|
  }

  /**
   * `Block.rotate`: an r-by-c shape becomes a c-by-r shape; cell (i, j)
   * moves to (j, r-1-i), a quarter turn clockwise.
   */
  function Rotated(s: seq<seq<int>>): (t: seq<seq<int>>)
    requires Rect(s)
    ensures Rect(t) && |t| == |s[0]| && |t[0]| == |s|
  {
    seq(|s[0]|, j requires 0 <= j < |s[0]| => seq(|s|, k requires 0 <= k < |s| => s[|s| - 1 - k][j]))
  }

  /** Cell (i, j) of the shape is cell (j, r-1-i) of the rotated shape. */
  lemma RotatedCells(s: seq<seq<int>>)
    requires Rect(s)
    ensures forall i, j :: 0 <= i < |s| && 0 <= j < |s[0]| ==> Rotated(s)[j][|s| - 1 - i] == s[i][j]
  {
  }

  /** A half turn: cell (i, j) moves to (r-1-i, c-1-j). */
  function HalfTurn(s: seq<seq<int>>): seq<seq<int>>
    requires Rect(s)
  {
    seq(|s|, i requires 0 <= i < |s| => seq(|s[0]|, j requires 0 <= j < |s[0]| => s[|s| - 1 - i][|s[0]| - 1 - j]))
  }

  lemma TwoRotations(s: seq<seq<int>>)
    requires Rect(s)
    ensures Rotated(Rotated(s)) == HalfTurn(s)
  {
    var t, h := Rotated(Rotated(s)), HalfTurn(s);
    assert |t| == |h|;
    forall i | 0 <= i < |t|
      ensures t[i] == h[i]
    {
      assert |t[i]| == |h[i]|;
    }
  }

  lemma HalfTurnTwice(s: seq<seq<int>>)
    requires Rect(s)
    ensures HalfTurn(HalfTurn(s)) == s
  {
    var h := HalfTurn(HalfTurn(s));
    assert |h| == |s|;
    forall i | 0 <= i < |s|
      ensures h[i] == s[i]
    {
      assert |h[i]| == |s[i]|;
    }
  }

  /** Four quarter turns restore the shape; this is what lets `rotate` undo a rotation by three more. */
  lemma FourRotations(s: seq<seq<int>>)
    requires Rect(s)
    ensures Rotated(Rotated(Rotated(Rotated(s)))) == s
  {
    TwoRotations(s);
    TwoRotations(Rotated(Rotated(s)));
    HalfTurnTwice(s);
  }

  /** The board has 20 rows of 10 cells. */
  predicate Shaped(board: seq<seq<int>>) {
    |board| == Height && forall r :: 0 <= r < Height ==> |board[r]| == Width
  }

  /** The condition `isCollision` tests for one nonzero shape cell landing on (row, col). */
  predicate Hits(board: seq<seq<int>>, row: int, col: int)
    requires Shaped(board) && 0 <= row
  {
    row >= Height || col < 0 || col >= Width || board[row][col] != 0
  }

  /**
   * A block with shape `s` at column `x`, row `y` collides when some nonzero
   * cell of the shape lands below the board, beside it or on a filled cell.
   */
  predicate Collides(board: seq<seq<int>>, s: seq<seq<int>>, x: int, y: int)
    requires Shaped(board) && Rect(s) && 0 <= y
  {
    exists i, j :: 0 <= i < |s| && 0 <= j < |s[0]| && s[i][j] != 0 && Hits(board, y + i, x + j)
  }

  /** Every nonzero cell of the shape lies on the board. */
  predicate InBounds(s: seq<seq<int>>, x: int, y: int) {
    forall i, j :: 0 <= i < |s| && 0 <= j < |s[i]| && s[i][j] != 0 ==> 0 <= y + i < Height && 0 <= x + j < Width
  }

  /** A position that does not collide keeps every nonzero cell on the board, over empty cells. */
  lemma NoCollisionInBounds(board: seq<seq<int>>, s: seq<seq<int>>, x: int, y: int)
    requires Shaped(board) && Rect(s) && 0 <= y
    requires !Collides(board, s, x, y)
    ensures InBounds(s, x, y)
    ensures forall i, j :: 0 <= i < |s| && 0 <= j < |s[i]| && s[i][j] != 0 ==> board[y + i][x + j] == 0
  {
    forall i, j | 0 <= i < |s| && 0 <= j < |s[i]| && s[i][j] != 0
      ensures 0 <= y + i < Height && 0 <= x + j < Width && board[y + i][x + j] == 0
    {
      assert !Hits(board, y + i, x + j);
    }
  }

  /** Cell (r, c) lies under a nonzero cell of the shape placed at (x, y). */
  predicate Covers(s: seq<seq<int>>, x: int, y: int, r: int, c: int) {
    0 <= r - y < |s| && 0 <= c - x < |s[r - y]| && s[r - y][c - x] != 0
  }

  /** The board after `placeBlock`: covered cells become 1, the rest keep their value. */
  function Placed(board: seq<seq<int>>, s: seq<seq<int>>, x: int, y: int): (b: seq<seq<int>>)
    requires Shaped(board)
    ensures Shaped(b)
  {
    seq(Height, r requires 0 <= r < Height =>
      seq(Width, c requires 0 <= c < Width => if Covers(s, x, y, r, c) then 1 else board[r][c]))
  }

  /**
   * After placing a block with at least one nonzero cell, the same block at
   * the same position collides; a block that did not collide before lands
   * exactly on the cells that were empty and are now 1.
   */
  lemma PlacedCollides(board: seq<seq<int>>, s: seq<seq<int>>, x: int, y: int, i: int, j: int)
    requires Shaped(board) && Rect(s) && 0 <= y && InBounds(s, x, y)
    requires 0 <= i < |s| && 0 <= j < |s[0]| && s[i][j] != 0
    ensures Collides(Placed(board, s, x, y), s, x, y)
  {
    assert Covers(s, x, y, y + i, x + j);
    assert Hits(Placed(board, s, x, y), y + i, x + j);
  }

  /** Every cell of the row is nonzero. */
  predicate Full(row: seq<int>) {
    forall j :: 0 <= j < |row| ==> row[j] != 0
  }

  function EmptyRow(): (row: seq<int>)
    ensures |row| == Width && !Full(row)
  {
    var row := seq(Width, _ => 0);
    assert row[0] == 0;
    row
  }

  function EmptyRows(k: nat): (rows: seq<seq<int>>)
    ensures |rows| == k && forall r :: 0 <= r < k ==> rows[r] == EmptyRow()
  {
    seq(k, _ => EmptyRow())
  }

  /** The rows that are not full, in their order. */
  function Kept(rows: seq<seq<int>>): (kept: seq<seq<int>>)
    ensures |kept| <= |rows|
    ensures forall r :: 0 <= r < |kept| ==> !Full(kept[r]) && kept[r] in rows
  {
    if rows == [] then []
    else if Full(rows[0]) then Kept(rows[1..])
    else [rows[0]] + Kept(rows[1..])
  }

  /** How many rows are full. */
  function FullCount(rows: seq<seq<int>>): (n: nat)
    ensures n == |rows| - |Kept(rows)|
  {
    if rows == [] then 0
    else if Full(rows[0]) then FullCount(rows[1..]) + 1
    else FullCount(rows[1..])
  }

  /**
   * The board after `clearRows`: the full rows are gone, the others keep
   * their order and sit at the bottom, and empty rows fill the top.
   */
  function Cleared(rows: seq<seq<int>>): (b: seq<seq<int>>)
    ensures |b| == |rows|
    ensures forall r :: 0 <= r < |b| ==> !Full(b[r])
  {
    var b := EmptyRows(FullCount(rows)) + Kept(rows);
    assert forall r :: 0 <= r < FullCount(rows) ==> b[r] == EmptyRow();
    assert forall r :: FullCount(rows) <= r < |b| ==> b[r] == Kept(rows)[r - FullCount(rows)];
    b
  }

  lemma ClearedShaped(rows: seq<seq<int>>)
    requires Shaped(rows)
    ensures Shaped(Cleared(rows))
  {
    var b := Cleared(rows);
    forall r | 0 <= r < Height
      ensures |b[r]| == Width
    {
      if r >= FullCount(rows) {
        assert b[r] == Kept(rows)[r - FullCount(rows)];
      }
    }
  }

  /** Number of nonzero cells of a row, and of a board. */
  function RowFilled(row: seq<int>): nat {
    if row == [] then 0 else RowFilled(row[..|row| - 1]) + if row[|row| - 1] != 0 then 1 else 0
  }

  function Filled(rows: seq<seq<int>>): nat {
    if rows == [] then 0 else Filled(rows[..|rows| - 1]) + RowFilled(rows[|rows| - 1])
  }

  lemma {:induction false} FullRowFilled(row: seq<int>)
    requires Full(row)
    ensures RowFilled(row) == |row|
  {
    if row != [] {
      FullRowFilled(row[..|row| - 1]);
    }
  }

  lemma {:induction false} EmptyRowFilled(k: nat)
    ensures RowFilled(seq(k, _ => 0)) == 0
  {
    if k > 0 {
      assert seq(k, _ => 0)[..k - 1] == seq(k - 1, _ => 0);
      EmptyRowFilled(k - 1);
    }
  }

  lemma {:induction false} FilledAppend(a: seq<seq<int>>, b: seq<seq<int>>)
    ensures Filled(a + b) == Filled(a) + Filled(b)
    decreases |b|
  {
    if b == [] {
      assert a + b == a;
    } else {
      assert (a + b)[..|a + b| - 1] == a + b[..|b| - 1];
      FilledAppend(a, b[..|b| - 1]);
    }
  }

  lemma {:induction false} EmptyRowsFilled(k: nat)
    ensures Filled(EmptyRows(k)) == 0
  {
    if k > 0 {
      assert EmptyRows(k)[..k - 1] == EmptyRows(k - 1);
      EmptyRowsFilled(k - 1);
      EmptyRowFilled(Width);
    }
  }

  /** Each full row holds `Width` filled cells; the rows kept hold the rest. */
  lemma {:induction false} KeptFilled(rows: seq<seq<int>>)
    requires forall r :: 0 <= r < |rows| ==> |rows[r]| == Width
    ensures Filled(rows) == Filled(Kept(rows)) + Width * FullCount(rows)
  {
    if rows != [] {
      var head, tail := rows[0], rows[1..];
      KeptFilled(tail);
      assert rows == [head] + tail;
      FilledAppend([head], tail);
      assert [head][..0] == [];
      if Full(head) {
        FullRowFilled(head);
      } else {
        FilledAppend([head], Kept(tail));
      }
    }
  }

  /** Clearing rows removes exactly `Width` filled cells per cleared row. */
  lemma ClearedFilled(rows: seq<seq<int>>)
    requires Shaped(rows)
    ensures Filled(Cleared(rows)) + Width * FullCount(rows) == Filled(rows)
  {
    KeptFilled(rows);
    FilledAppend(EmptyRows(FullCount(rows)), Kept(rows));
    EmptyRowsFilled(FullCount(rows));
  }

  /** `adjustSpeed`: 50 ms faster whenever the score is a multiple of 500 (0 included), never past 100 ms. */
  function NextSpeed(speed: int, score: int): (s: int)
    ensures s == speed || (s == speed - 50 && score % 500 == 0 && speed > 100)
    ensures 100 <= speed && speed % 50 == 0 ==> 100 <= s
    ensures speed % 50 == s % 50
  {
    if score % 500 == 0 && speed > 100 then speed - 50 else speed
  }

  /** Where a new block starts: `BOARD_WIDTH / 2 - shape[0].length / 2`, row 0. */
  function SpawnX(s: seq<seq<int>>): int
    requires Rect(s)
  {
    Width / 2 - |s[0]| / 2
  }

  /** Each of the three shapes fits on the board where a new block starts. */
  lemma ShapesFit(k: int)
    requires 0 <= k < |Shapes|
    ensures Rect(Shapes[k]) && InBounds(Shapes[k], SpawnX(Shapes[k]), 0)
  {
  }

  class Block {
    var shape: seq<seq<int>>
    var x: int
    var y: int

    constructor (shape0: seq<seq<int>>)
      requires Rect(shape0)
      ensures shape == shape0 && x == SpawnX(shape0) && y == 0
    {
      shape := shape0;
      x := Width / 2 - |shape0[0]| / 2;
      y := 0;
    }

    /** A block as it leaves the generator: one of the shapes, at the start position. */
    ghost predicate Spawned()
      reads this
    {
      shape in Shapes && x == SpawnX(shape) && y == 0
    }

    /** A block the game may move: rectangular, at a row the collision test can index, on the board. */
    ghost predicate OnBoard()
      reads this
    {
      Rect(shape) && 0 <= y && InBounds(shape, x, y)
    }

    method MoveDown()
      modifies this
      ensures y == old(y) + 1 && x == old(x) && shape == old(shape)
    {
      y := y + 1;
    }

    method MoveUp()
      modifies this
      ensures y == old(y) - 1 && x == old(x) && shape == old(shape)
    {
      y := y - 1;
    }

    method MoveLeft()
      modifies this
      ensures x == old(x) - 1 && y == old(y) && shape == old(shape)
    {
      x := x - 1;
    }

    method MoveRight()
      modifies this
      ensures x == old(x) + 1 && y == old(y) && shape == old(shape)
    {
      x := x + 1;
    }

    /** Fills a fresh c-by-r grid with `rotated[j][r-1-i] = shape[i][j]` and makes it the shape. */
    method Rotate()
      requires Rect(shape)
      modifies this
      ensures shape == Rotated(old(shape)) && x == old(x) && y == old(y)
    {
      var s := shape;
      var rows, cols := |s|, |s[0]|;
      var rotated := new seq<int>[cols](_ => seq(rows, _ => 0));
      for i := 0 to rows
        modifies rotated
        invariant forall j :: 0 <= j < cols ==> |rotated[j]| == rows
        invariant forall j, k :: 0 <= j < cols && 0 <= k < rows ==>
          rotated[j][k] == if k >= rows - i then s[rows - 1 - k][j] else 0
      {
        for j := 0 to cols
          modifies rotated
          invariant forall j' :: 0 <= j' < cols ==> |rotated[j']| == rows
          invariant forall j', k :: 0 <= j' < cols && 0 <= k < rows ==>
            rotated[j'][k] ==
              if k > rows - 1 - i then s[rows - 1 - k][j']
              else if k == rows - 1 - i && j' < j then s[i][j']
              else 0
        {
          rotated[j] := rotated[j][rows - 1 - i := s[i][j]];
        }
      }
      ghost var t := Rotated(s);
      assert forall j :: 0 <= j < cols ==> rotated[j] == t[j];
      shape := rotated[..];
    }
  }

  /** `rotate` applied n times. */
  function Turns(s: seq<seq<int>>, n: nat): (t: seq<seq<int>>)
    requires Rect(s)
    ensures Rect(t)
  {
    if n == 0 then s else Rotated(Turns(s, n - 1))
  }

  lemma FourTurns(s: seq<seq<int>>)
    requires Rect(s)
    ensures Turns(s, 4) == s
  {
    assert Turns(s, 4) == Rotated(Rotated(Rotated(Rotated(s)))) by {
      assert Turns(s, 1) == Rotated(s);
      assert Turns(s, 2) == Rotated(Turns(s, 1));
      assert Turns(s, 3) == Rotated(Turns(s, 2));
    }
    FourRotations(s);
  }

  /**
   * The state of `clearRows` before scanning row `i`, with `c` rows cleared
   * so far: the first `m` rows of the original board `o` are not scanned
   * yet and sit right below `c` empty rows; below them are the rows of
   * `o[m..]` that are not full. Once every original row is scanned
   * (`m == 0`), only empty rows remain at and above `i`.
   */
  ghost predicate Scanning(b: seq<seq<int>>, o: seq<seq<int>>, m: int, i: int, c: int) {
    && Shaped(o) && Shaped(b)
    && -1 <= i < Height && 0 <= m <= Height && 0 <= c
    && (if m > 0 then i + 1 == c + m else i + 1 <= c)
    && c == FullCount(o[m..])
    && b == EmptyRows(c) + o[..m] + Kept(o[m..])
  }

  lemma ScanStart(o: seq<seq<int>>)
    requires Shaped(o)
    ensures Scanning(o, o, Height, Height - 1, 0)
  {
    assert o[..Height] == o && o[Height..] == [];
    assert EmptyRows(0) == [];
  }

  lemma ScanEnd(b: seq<seq<int>>, o: seq<seq<int>>, m: int, c: int)
    requires Scanning(b, o, m, -1, c)
    ensures b == Cleared(o) && c == FullCount(o)
  {
    assert o[..0] == [] && o[0..] == o;
  }

  lemma EmptyRowsCons(c: nat)
    ensures [EmptyRow()] + EmptyRows(c) == EmptyRows(c + 1)
  {
  }

  /** Scanning a full row: it is removed, everything above moves down one row and the same index is scanned again. */
  lemma RemoveFullRow(b: seq<seq<int>>, o: seq<seq<int>>, m: int, i: int, c: int)
    requires Scanning(b, o, m, i, c) && 0 <= i && Full(b[i])
    ensures m > 0
    ensures Scanning([EmptyRow()] + b[..i] + b[i + 1..], o, m - 1, i, c + 1)
  {
    var m' := m - 1;
    assert b[i] == o[m'];
    assert o[m'..][1..] == o[m..];
    assert b[..i] == EmptyRows(c) + o[..m'];
    assert b[i + 1..] == Kept(o[m..]);
    EmptyRowsCons(c);
    var b' := [EmptyRow()] + b[..i] + b[i + 1..];
    assert b' == EmptyRows(c + 1) + o[..m'] + Kept(o[m'..]);
    assert forall r :: 0 <= r < Height ==> |b'[r]| == Width by {
      assert forall r :: 0 <= r < Height ==> b'[r] == EmptyRow() || b'[r] in b;
    }
  }

  /** Scanning a row that is not full leaves the board as it is and moves on to the row above. */
  lemma KeepRow(b: seq<seq<int>>, o: seq<seq<int>>, m: int, i: int, c: int)
    requires Scanning(b, o, m, i, c) && 0 <= i && !Full(b[i])
    ensures Scanning(b, o, if m > 0 then m - 1 else 0, i - 1, c)
  {
    if m > 0 {
      KeepOriginalRow(b, o, m, i, c);
    }
  }

  lemma KeepOriginalRow(b: seq<seq<int>>, o: seq<seq<int>>, m: int, i: int, c: int)
    requires Scanning(b, o, m, i, c) && 0 <= i && !Full(b[i]) && m > 0
    ensures Scanning(b, o, m - 1, i - 1, c)
  {
    var m' := m - 1;
    RowAt(EmptyRows(c), o[..m], Kept(o[m..]), i);
    assert o[..m][m'] == o[m'];
    KeptRow(o, m');
    SplitLast(o, m);
    Regroup(EmptyRows(c), o[..m'], o[m'], Kept(o[m..]));
  }

  /** The row at a + p's last index in a + p + k is p's last row. */
  lemma RowAt(a: seq<seq<int>>, p: seq<seq<int>>, k: seq<seq<int>>, i: int)
    requires |p| > 0 && i == |a| + |p| - 1
    ensures (a + p + k)[i] == p[|p| - 1]
  {
  }

  /** A row that is not full is kept in front of the rows kept after it. */
  lemma KeptRow(o: seq<seq<int>>, m: int)
    requires 0 <= m < |o| && !Full(o[m])
    ensures Kept(o[m..]) == [o[m]] + Kept(o[m + 1..])
    ensures FullCount(o[m..]) == FullCount(o[m + 1..])
  {
    assert o[m..][1..] == o[m + 1..];
  }

  lemma SplitLast(o: seq<seq<int>>, m: int)
    requires 0 < m <= |o|
    ensures o[..m] == o[..m - 1] + [o[m - 1]]
  {
  }

  lemma Regroup(e: seq<seq<int>>, p: seq<seq<int>>, x: seq<int>, k: seq<seq<int>>)
    ensures e + (p + [x]) + k == e + p + ([x] + k)
  {
  }

  /** A block that has just left the generator can be moved. */
  lemma SpawnedOnBoard(b: Block)
    requires b.Spawned()
    ensures b.OnBoard()
  {
    var k :| 0 <= k < |Shapes| && b.shape == Shapes[k];
    ShapesFit(k);
  }

  class TetrisGame {
    var board: array<seq<int>>
    var currentBlock: Block?
    var nextBlock: Block?
    var blockQueue: seq<Block>
    var score: int
    var gameSpeed: int

    /**
     * The state between two operations, allowing a missing current block
     * (the hand-off in `generateNewBlock` fills it): a 20-by-10 board, a
     * current block on the board, a next block and at most one queued
     * block just as the generator made them, all three distinct, a
     * non-negative score in steps of 100 and a speed from 100 to 500 in
     * steps of 50.
     */
    ghost predicate Sound()
      reads this, board, currentBlock, nextBlock, blockQueue
    {
      && Shaped(board[..])
      && (currentBlock != null ==> currentBlock.OnBoard())
      && (nextBlock != null ==> nextBlock.Spawned() && nextBlock != currentBlock)
      && |blockQueue| <= 1
      && (forall b :: b in blockQueue ==> b.Spawned() && b != currentBlock && b != nextBlock)
      && score >= 0 && score % 100 == 0
      && 100 <= gameSpeed <= InitialGameSpeed && gameSpeed % 50 == 0
    }

    /** The state after the constructor and after every operation: `Sound` with a current block. */
    ghost predicate Valid()
      reads this, board, currentBlock, nextBlock, blockQueue
    {
      Sound() && currentBlock != null
    }

    /**
     * The first block goes straight to `currentBlock`, so the queue is
     * empty and `nextBlock` is null afterwards.
     */
    constructor (pick: int)
      requires 0 <= pick < |Shapes|
      ensures Valid() && fresh(board) && board[..] == EmptyRows(Height)
      ensures score == 0 && gameSpeed == InitialGameSpeed
      ensures fresh(currentBlock) && currentBlock.Spawned() && currentBlock.shape == Shapes[pick]
      ensures nextBlock == null && blockQueue == []
    {
      board := new seq<int>[Height](_ => EmptyRow());
      blockQueue := [];
      score := 0;
      gameSpeed := InitialGameSpeed;
      currentBlock := null;
      nextBlock := null;
      new;
      GenerateNewBlock(pick);
      nextBlock := Poll();
    }

    /** `Queue.poll`: the head of the queue, or null when it is empty. */
    method Poll() returns (b: Block?)
      modifies this`blockQueue
      ensures old(blockQueue) == [] ==> b == null && blockQueue == []
      ensures old(blockQueue) != [] ==> b == old(blockQueue)[0] && blockQueue == old(blockQueue)[1..]
    {
      if blockQueue == [] {
        b := null;
      } else {
        b := blockQueue[0];
        blockQueue := blockQueue[1..];
      }
    }

    /**
     * Queues a new block with shape `Shapes[pick]` (`pick` stands for the
     * random draw) and moves it to `currentBlock` only when there is none.
     */
    method GenerateNewBlock(pick: int)
      requires Sound() && blockQueue == [] && 0 <= pick < |Shapes|
      modifies this`blockQueue, this`currentBlock
      ensures Valid()
      ensures old(currentBlock) == null ==>
        fresh(currentBlock) && currentBlock.Spawned() && currentBlock.shape == Shapes[pick] && blockQueue == []
      ensures old(currentBlock) != null ==>
        currentBlock == old(currentBlock) && |blockQueue| == 1 &&
        fresh(blockQueue[0]) && blockQueue[0].shape == Shapes[pick]
    {
      var shapes := Shapes;
      var shape := shapes[pick];
      var block := new Block(shape);
      blockQueue := blockQueue + [block];
      if currentBlock == null {
        currentBlock := Poll();
        SpawnedOnBoard(currentBlock);
      }
    }

    method IsCollision(block: Block) returns (hit: bool)
      requires Shaped(board[..]) && Rect(block.shape) && 0 <= block.y
      ensures hit == Collides(board[..], block.shape, block.x, block.y)
    {
      var shape := block.shape;
      for i := 0 to |shape|
        invariant forall i', j' :: 0 <= i' < i && 0 <= j' < |shape[0]| && shape[i'][j'] != 0 ==>
          !Hits(board[..], block.y + i', block.x + j')
      {
        for j := 0 to |shape[0]|
          invariant forall i', j' :: 0 <= i' < i && 0 <= j' < |shape[0]| && shape[i'][j'] != 0 ==>
            !Hits(board[..], block.y + i', block.x + j')
          invariant forall j' :: 0 <= j' < j && shape[i][j'] != 0 ==> !Hits(board[..], block.y + i, block.x + j')
        {
          if shape[i][j] != 0 && (block.y + i >= Height || block.x + j < 0 || block.x + j >= Width ||
                                  board[block.y + i][block.x + j] != 0) {
            assert Hits(board[..], block.y + i, block.x + j);
            return true;
          }
        }
      }
      return false;
    }

    /** A move or rotation that would collide is undone. */
    method MoveLeft()
      requires Valid()
      modifies currentBlock
      ensures Valid()
      ensures currentBlock.shape == old(currentBlock.shape) && currentBlock.y == old(currentBlock.y)
      ensures currentBlock.x ==
        if Collides(board[..], old(currentBlock.shape), old(currentBlock.x) - 1, old(currentBlock.y))
        then old(currentBlock.x) else old(currentBlock.x) - 1
    {
      currentBlock.MoveLeft();
      var hit := IsCollision(currentBlock);
      if hit {
        currentBlock.MoveRight();
      } else {
        NoCollisionInBounds(board[..], currentBlock.shape, currentBlock.x, currentBlock.y);
      }
    }

    method MoveRight()
      requires Valid()
      modifies currentBlock
      ensures Valid()
      ensures currentBlock.shape == old(currentBlock.shape) && currentBlock.y == old(currentBlock.y)
      ensures currentBlock.x ==
        if Collides(board[..], old(currentBlock.shape), old(currentBlock.x) + 1, old(currentBlock.y))
        then old(currentBlock.x) else old(currentBlock.x) + 1
    {
      currentBlock.MoveRight();
      var hit := IsCollision(currentBlock);
      if hit {
        currentBlock.MoveLeft();
      } else {
        NoCollisionInBounds(board[..], currentBlock.shape, currentBlock.x, currentBlock.y);
      }
    }

    /** A colliding rotation is undone by three more rotations. */
    method Rotate()
      requires Valid()
      modifies currentBlock
      ensures Valid()
      ensures currentBlock.x == old(currentBlock.x) && currentBlock.y == old(currentBlock.y)
      ensures currentBlock.shape ==
        if Collides(board[..], Rotated(old(currentBlock.shape)), old(currentBlock.x), old(currentBlock.y))
        then old(currentBlock.shape) else Rotated(old(currentBlock.shape))
    {
      ghost var s0 := currentBlock.shape;
      currentBlock.Rotate();
      var hit := IsCollision(currentBlock);
      if hit {
        for i := 0 to 3
          invariant currentBlock.shape == Turns(s0, i + 1)
          invariant currentBlock.x == old(currentBlock.x) && currentBlock.y == old(currentBlock.y)
        {
          currentBlock.Rotate();
        }
        FourTurns(s0);
      } else {
        NoCollisionInBounds(board[..], currentBlock.shape, currentBlock.x, currentBlock.y);
      }
    }

    /**
     * One step down. If the block would collide there, it stays where it
     * was, is written onto the board, full rows are cleared, the score
     * rises by 100 per cleared row and the blocks are handed on.
     */
    method MoveDown(pick: int)
      requires Valid() && 0 <= pick < |Shapes|
      modifies this, board, currentBlock
      ensures Valid() && board == old(board) && gameSpeed == old(gameSpeed)
      ensures !Collides(old(board[..]), old(currentBlock.shape), old(currentBlock.x), old(currentBlock.y) + 1) ==>
        && currentBlock == old(currentBlock) && currentBlock.shape == old(currentBlock.shape)
        && currentBlock.x == old(currentBlock.x) && currentBlock.y == old(currentBlock.y) + 1
        && board[..] == old(board[..]) && score == old(score)
        && nextBlock == old(nextBlock) && blockQueue == old(blockQueue)
      ensures Collides(old(board[..]), old(currentBlock.shape), old(currentBlock.x), old(currentBlock.y) + 1) ==>
        var placed := Placed(old(board[..]), old(currentBlock.shape), old(currentBlock.x), old(currentBlock.y));
        && board[..] == Cleared(placed)
        && score == old(score) + 100 * FullCount(placed)
        && (old(nextBlock) != null ==> currentBlock == old(nextBlock))
        && (old(nextBlock) == null ==> fresh(currentBlock) && currentBlock.shape == Shapes[pick])
        && nextBlock == (if old(blockQueue) == [] then null else old(blockQueue)[0])
        && (old(nextBlock) != null ==>
              |blockQueue| == 1 && fresh(blockQueue[0]) && blockQueue[0].shape == Shapes[pick])
        && (old(nextBlock) == null ==> blockQueue == [])
    {
      var hit := StepDown();
      if hit {
        Land(pick);
      }
    }

    /** The trial step of `moveDown`: one row down, and back up again when that collides. */
    method StepDown() returns (hit: bool)
      requires Valid()
      modifies currentBlock
      ensures Valid()
      ensures hit == Collides(board[..], old(currentBlock.shape), old(currentBlock.x), old(currentBlock.y) + 1)
      ensures currentBlock.shape == old(currentBlock.shape) && currentBlock.x == old(currentBlock.x)
      ensures currentBlock.y == if hit then old(currentBlock.y) else old(currentBlock.y) + 1
    {
      currentBlock.MoveDown();
      hit := IsCollision(currentBlock);
      if hit {
        currentBlock.MoveUp();
      } else {
        NoCollisionInBounds(board[..], currentBlock.shape, currentBlock.x, currentBlock.y);
      }
    }

    /** The landing branch of `moveDown`, once the block is back in its last free position. */
    method Land(pick: int)
      requires Valid() && 0 <= pick < |Shapes|
      modifies this, board
      ensures Valid() && board == old(board) && gameSpeed == old(gameSpeed)
      ensures
        var placed := Placed(old(board[..]), old(currentBlock.shape), old(currentBlock.x), old(currentBlock.y));
        && board[..] == Cleared(placed)
        && score == old(score) + 100 * FullCount(placed)
        && (old(nextBlock) != null ==> currentBlock == old(nextBlock))
        && (old(nextBlock) == null ==> fresh(currentBlock) && currentBlock.shape == Shapes[pick])
        && nextBlock == (if old(blockQueue) == [] then null else old(blockQueue)[0])
        && (old(nextBlock) != null ==>
              |blockQueue| == 1 && fresh(blockQueue[0]) && blockQueue[0].shape == Shapes[pick])
        && (old(nextBlock) == null ==> blockQueue == [])
    {
      PlaceBlock(currentBlock);
      ClearedShaped(board[..]);
      var rowsCleared := ClearRows();
      score := score + rowsCleared * 100;
      HandOff(pick);
    }

    /** The landed block is dropped: `nextBlock` becomes current, the queue head becomes next, and a block is generated. */
    method HandOff(pick: int)
      requires Sound() && 0 <= pick < |Shapes|
      modifies this
      ensures Valid() && board == old(board) && score == old(score) && gameSpeed == old(gameSpeed)
      ensures old(nextBlock) != null ==> currentBlock == old(nextBlock)
      ensures old(nextBlock) == null ==> fresh(currentBlock) && currentBlock.shape == Shapes[pick]
      ensures nextBlock == if old(blockQueue) == [] then null else old(blockQueue)[0]
      ensures old(nextBlock) != null ==>
        |blockQueue| == 1 && fresh(blockQueue[0]) && blockQueue[0].shape == Shapes[pick]
      ensures old(nextBlock) == null ==> blockQueue == []
    {
      currentBlock := nextBlock;
      if currentBlock != null {
        SpawnedOnBoard(currentBlock);
      }
      nextBlock := Poll();
      GenerateNewBlock(pick);
    }

    /**
     * Empties the board and the queue and resets score and speed; the
     * falling block is kept, since `generateNewBlock` replaces only a
     * missing one, and the new block becomes `nextBlock`.
     */
    method RestartGame(pick: int)
      requires Valid() && 0 <= pick < |Shapes|
      modifies this
      ensures Valid() && fresh(board) && board[..] == EmptyRows(Height)
      ensures score == 0 && gameSpeed == InitialGameSpeed
      ensures currentBlock == old(currentBlock)
      ensures fresh(nextBlock) && nextBlock.shape == Shapes[pick] && blockQueue == []
    {
      board := new seq<int>[Height](_ => EmptyRow());
      blockQueue := [];
      score := 0;
      GenerateNewBlock(pick);
      nextBlock := Poll();
      gameSpeed := InitialGameSpeed;
    }

    /** One timer tick: a step down, the game-over test, then the speed adjustment. */
    method Tick(pick: int) returns (over: bool)
      requires Valid() && 0 <= pick < |Shapes|
      modifies this, board, currentBlock
      ensures Valid() && board == old(board)
      ensures !Collides(old(board[..]), old(currentBlock.shape), old(currentBlock.x), old(currentBlock.y) + 1) ==>
        && currentBlock == old(currentBlock) && currentBlock.shape == old(currentBlock.shape)
        && currentBlock.x == old(currentBlock.x) && currentBlock.y == old(currentBlock.y) + 1
        && board[..] == old(board[..]) && score == old(score)
        && nextBlock == old(nextBlock) && blockQueue == old(blockQueue)
      ensures Collides(old(board[..]), old(currentBlock.shape), old(currentBlock.x), old(currentBlock.y) + 1) ==>
        var placed := Placed(old(board[..]), old(currentBlock.shape), old(currentBlock.x), old(currentBlock.y));
        && board[..] == Cleared(placed)
        && score == old(score) + 100 * FullCount(placed)
        && (old(nextBlock) != null ==> currentBlock == old(nextBlock))
        && (old(nextBlock) == null ==> fresh(currentBlock) && currentBlock.shape == Shapes[pick])
        && nextBlock == (if old(blockQueue) == [] then null else old(blockQueue)[0])
        && (old(nextBlock) != null ==>
              |blockQueue| == 1 && fresh(blockQueue[0]) && blockQueue[0].shape == Shapes[pick])
        && (old(nextBlock) == null ==> blockQueue == [])
      ensures over == exists j :: 0 <= j < Width && board[0][j] != 0
      ensures gameSpeed == NextSpeed(old(gameSpeed), score)
    {
      MoveDown(pick);
      over := IsGameOver();
      AdjustSpeed();
    }

    /** Sets to 1 every board cell under a nonzero cell of the block. */
    method PlaceBlock(block: Block)
      requires Shaped(board[..]) && block.OnBoard()
      modifies board
      ensures board[..] == Placed(old(board[..]), block.shape, block.x, block.y)
    {
      ghost var b0 := board[..];
      var shape := block.shape;
      for i := 0 to |shape|
        invariant Shaped(board[..])
        invariant forall r, c :: 0 <= r < Height && 0 <= c < Width ==>
          board[r][c] == if Covers(shape, block.x, block.y, r, c) && r - block.y < i then 1 else b0[r][c]
      {
        for j := 0 to |shape[0]|
          invariant Shaped(board[..])
          invariant forall r, c :: 0 <= r < Height && 0 <= c < Width ==>
            board[r][c] ==
              if Covers(shape, block.x, block.y, r, c) && (r - block.y < i || (r - block.y == i && c - block.x < j))
              then 1 else b0[r][c]
        {
          if shape[i][j] != 0 {
            board[block.y + i] := board[block.y + i][block.x + j := 1];
          }
        }
      }
      ghost var p := Placed(b0, shape, block.x, block.y);
      assert forall r :: 0 <= r < Height ==> board[r] == p[r];
    }

    /**
     * Rows are scanned from the bottom; a full row is removed by copying
     * every row above it one step down and emptying the top row, and the
     * same index is scanned again.
     */
    method ClearRows() returns (rowsCleared: int)
      requires Shaped(board[..])
      modifies board
      ensures board[..] == Cleared(old(board[..])) && rowsCleared == FullCount(old(board[..]))
    {
      ghost var o := board[..];
      ghost var m := Height;
      rowsCleared := 0;
      var i := Height - 1;
      ScanStart(o);
      while i >= 0
        invariant Scanning(board[..], o, m, i, rowsCleared)
        decreases i + 1 + m
      {
        var rowFilled := true;
        for j := 0 to Width
          modifies {}
          invariant rowFilled == forall j' :: 0 <= j' < j ==> board[i][j'] != 0
        {
          if board[i][j] == 0 {
            rowFilled := false;
            break;
          }
        }
        ghost var b := board[..];
        if rowFilled {
          RemoveFullRow(b, o, m, i, rowsCleared);
          rowsCleared := rowsCleared + 1;
          ShiftDown(i);
          i := i + 1;
          m := m - 1;
        } else {
          KeepRow(b, o, m, i, rowsCleared);
          m := if m > 0 then m - 1 else 0;
        }
        i := i - 1;
      }
      ScanEnd(board[..], o, m, rowsCleared);
    }

    /** Removes row `i`: the rows above it move one step down and an empty row enters at the top. */
    method ShiftDown(i: int)
      requires 0 <= i < board.Length
      modifies board
      ensures board[..] == [EmptyRow()] + old(board[..])[..i] + old(board[..])[i + 1..]
    {
      ghost var b0 := board[..];
      var k := i;
      while k > 0
        invariant 0 <= k <= i
        invariant forall r :: 0 <= r <= k ==> board[r] == b0[r]
        invariant forall r :: k < r <= i ==> board[r] == b0[r - 1]
        invariant forall r :: i < r < board.Length ==> board[r] == b0[r]
      {
        board[k] := board[k - 1];
        k := k - 1;
      }
      board[0] := EmptyRow();
    }

    method IsGameOver() returns (over: bool)
      requires Shaped(board[..])
      ensures over == exists j :: 0 <= j < Width && board[0][j] != 0
    {
      for j := 0 to Width
        invariant forall j' :: 0 <= j' < j ==> board[0][j'] == 0
      {
        if board[0][j] != 0 {
          return true;
        }
      }
      return false;
    }

    method AdjustSpeed()
      requires Valid()
      modifies this`gameSpeed
      ensures Valid() && gameSpeed == NextSpeed(old(gameSpeed), score)
    {
      if score % 500 == 0 && gameSpeed > 100 {
        gameSpeed := gameSpeed - 50;
      }
    }
  }
}
