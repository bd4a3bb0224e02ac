/** The 16x16 game of src/minesweeper.c: the grid of cells, initGrid with the
    bomb layout as an input, revealTiles (which also stops at flags),
    check_status, the tile and counter-digit choices of drawCanvas and
    drawNumbers, and the mouse handling of process_input. */
module Minesweeper16 {
  import opened Machine
  import opened MineField

  const Size := 16
  const CanvasX := 21
  const CanvasY := 87
  const CellSize := 24

  // Sprite indices (the Tiles enum)
  const TilePressed := 0
  const TileNormal := 9
  const TileFlag := 10
  const BombNormal := 13
  const BombRed := 14
  const BombCross := 15
  const DigitZero := 16
  const Minus := 26
  const Blank := 27
  const FaceNormal := 28
  const FacePressed := 29
  const FaceShock := 30

  datatype GameState = GameOver | Playing | Restarting | Won

  /** A cell without its drawing rectangles. */
  datatype Cell = Cell(isBomb: bool, isRevealed: bool, isFlagged: bool, isPressed: bool, closeBombs: int)

  type Grid = seq<seq<Cell>>

  predicate Shaped(g: Grid) {
    WellFormed(g, Size)
  }

  function Bombs(g: Grid): set<Pos>
    requires Shaped(g)
  {
    CellSet(g, Size, (c: Cell) => c.isBomb)
  }

  function Revealed(g: Grid): set<Pos>
    requires Shaped(g)
  {
    CellSet(g, Size, (c: Cell) => c.isRevealed)
  }

  function Flagged(g: Grid): set<Pos>
    requires Shaped(g)
  {
    CellSet(g, Size, (c: Cell) => c.isFlagged)
  }

  /** The cells revealTiles spreads from: closeBombs not positive. */
  function BlankCells(g: Grid): set<Pos>
    requires Shaped(g)
  {
    CellSet(g, Size, (c: Cell) => c.closeBombs <= 0)
  }

  // ---------------------------------------------------------------------------
  // initGrid

  /** Which cells arc4random made bombs, as an input. */
  type Layout = seq<seq<bool>>

  /** initGrid after both loops: every cell fresh with the layout's bomb flag,
      and each non-bomb cell holding its neighbour count. */
  function InitGrid(layout: Layout): (g: Grid)
    requires WellFormed(layout, Size)
    ensures Shaped(g)
    ensures forall p | InSquare(Size, p) ::
      var c := At(g, Size, p);
      && c.isBomb == At(layout, Size, p)
      && !c.isRevealed && !c.isFlagged && !c.isPressed
      && c.closeBombs == if c.isBomb then 0 else |NearBombs(Bombs(g), Size, p)|
  {
    var bombs := CellSet(layout, Size, (b: bool) => b);
    var g := seq(Size, y requires 0 <= y < Size => seq(Size, x requires 0 <= x < Size =>
      Cell(layout[y][x], false, false, false,
           if layout[y][x] then 0 else CountNeighbouringBombs(bombs, Size, (x, y)))));
    assert Bombs(g) == bombs;
    forall p | InSquare(Size, p)
      ensures CountNeighbouringBombs(bombs, Size, p) == |NearBombs(Bombs(g), Size, p)|
    {
      CountIsNearBombs(bombs, Size, p);
    }
    g
  }

  /** initGrid as the program runs it: the first double loop places the bombs
      and counts them into num_bombs. */
  method InitGame(layout: Layout) returns (g: Grid, numBombs: int)
    requires WellFormed(layout, Size)
    ensures g == InitGrid(layout)
    ensures numBombs == |Bombs(g)|
  {
    g := InitGrid(layout);
    numBombs := CountCells(g, Size, 0, (c: Cell) => c.isBomb);
    assert RowsSet(g, Size, 0, (c: Cell) => c.isBomb) == Bombs(g);
  }

  // ---------------------------------------------------------------------------
  // revealTiles

  /** The flood-fill board: bombs and flagged cells stop it. */
  function Board(g: Grid): Field
    requires Shaped(g)
  {
    Field(Size, 0, Bombs(g) + Flagged(g), BlankCells(g))
  }

  /** revealTiles(grid, p.0, p.1): only isRevealed changes, only from false to
      true and never on a bomb or a flag; a call on a cell off the grid,
      revealed, a bomb or flagged changes nothing, and any other cell is
      revealed. */
  function RevealTiles(g: Grid, p: Pos): (r: Grid)
    requires Shaped(g)
    ensures Shaped(r)
    ensures Revealed(r) == Reveal(Board(g), Revealed(g), p)
    ensures forall q | InSquare(Size, q) ::
      At(r, Size, q) == At(g, Size, q).(isRevealed := At(r, Size, q).isRevealed)
    ensures forall q | InSquare(Size, q) && At(g, Size, q).isRevealed :: At(r, Size, q).isRevealed
    ensures forall q | InSquare(Size, q) && At(r, Size, q).isRevealed && !At(g, Size, q).isRevealed ::
      !At(g, Size, q).isBomb && !At(g, Size, q).isFlagged
    ensures !InSquare(Size, p) || At(g, Size, p).isRevealed || At(g, Size, p).isBomb || At(g, Size, p).isFlagged
      ==> r == g
    ensures InSquare(Size, p) && !At(g, Size, p).isRevealed && !At(g, Size, p).isBomb && !At(g, Size, p).isFlagged
      ==> At(r, Size, p).isRevealed
  {
    var rev := Revealed(g);
    var newly := Reveal(Board(g), rev, p);
    RevealSpec(Board(g), rev, p);
    WithRevealedSame(g);
    WithRevealed(g, newly)
  }

  /** The grid with exactly the cells of s revealed. */
  function WithRevealed(g: Grid, s: set<Pos>): (r: Grid)
    requires Shaped(g)
    ensures Shaped(r) && Revealed(r) == s * Cells(Board(g))
    ensures forall q | InSquare(Size, q) :: At(r, Size, q) == At(g, Size, q).(isRevealed := q in s)
  {
    seq(Size, y requires 0 <= y < Size => seq(Size, x requires 0 <= x < Size =>
      g[y][x].(isRevealed := (x, y) in s)))
  }

  lemma WithRevealedSame(g: Grid)
    requires Shaped(g)
    ensures WithRevealed(g, Revealed(g)) == g
  {
    var r := WithRevealed(g, Revealed(g));
    forall y | 0 <= y < Size
      ensures r[y] == g[y]
    {
      assert forall x | 0 <= x < Size :: r[y][x] == At(r, Size, (x, y)) == At(g, Size, (x, y));
    }
  }

  /** The flood fill's extent: every blank cell it reveals has all its open
      neighbours revealed, and every cell it reveals is reached from p through
      blank cells it revealed. */
  lemma RevealTilesFlood(g: Grid, p: Pos)
    requires Shaped(g)
    ensures var r := RevealTiles(g, p);
      && Closed(Board(g), Revealed(g), Revealed(r))
      && forall q | q in Revealed(r) && q !in Revealed(g) :: Reaches(Board(g), Revealed(r) - Revealed(g), p, q)
  {
    RevealSpec(Board(g), Revealed(g), p);
  }

  // ---------------------------------------------------------------------------
  // check_status

  /** Every cell that is not a bomb is revealed. */
  ghost predicate Cleared(g: Grid)
    requires Shaped(g)
  {
    forall p | InSquare(Size, p) :: At(g, Size, p).isBomb || At(g, Size, p).isRevealed
  }

  /** check_status: scans the grid and returns at the first unrevealed non-bomb
      cell; when there is none, PLAYING becomes WON. */
  method CheckStatus(g: Grid, state: GameState) returns (r: GameState)
    requires Shaped(g)
    ensures r == if state == Playing && Cleared(g) then Won else state
  {
    var y := 0;
    while y < Size
      invariant 0 <= y <= Size
      invariant forall p | InSquare(Size, p) && p.1 < y :: At(g, Size, p).isBomb || At(g, Size, p).isRevealed
    {
      var x := 0;
      while x < Size
        invariant 0 <= x <= Size
        invariant forall p | InSquare(Size, p) && (p.1 < y || (p.1 == y && p.0 < x)) ::
          At(g, Size, p).isBomb || At(g, Size, p).isRevealed
      {
        if !g[y][x].isBomb && !g[y][x].isRevealed {
          assert !At(g, Size, (x, y)).isBomb && !At(g, Size, (x, y)).isRevealed;
          return state;
        }
        x := x + 1;
      }
      y := y + 1;
    }
    r := if state == Playing then Won else state;
  }

  // ---------------------------------------------------------------------------
  // drawCanvas: the sprite of a cell

  /** The tile drawCanvas picks, by its sequence of overriding assignments
      starting from the stored TILE_NORMAL. */
  function Tile(c: Cell, state: GameState): (t: int)
    ensures state == GameOver && c.isBomb ==>
      t == if c.isRevealed then BombRed else if c.isFlagged then TileFlag else BombNormal
    ensures state == GameOver && !c.isBomb && c.isFlagged ==> t == BombCross
    ensures state != GameOver || (!c.isBomb && !c.isFlagged) ==>
      t == if c.isFlagged && !c.isRevealed then TileFlag
           else if c.isRevealed && !c.isBomb then c.closeBombs
           else if c.isRevealed || c.isPressed then TilePressed
           else TileNormal
  {
    var t1 := if c.isPressed || c.isRevealed then TilePressed else TileNormal;
    var t2 := if !c.isBomb && c.isRevealed then c.closeBombs else t1;
    var t3 := if c.isFlagged && !c.isRevealed then TileFlag else t2;
    if state != GameOver then t3
    else
      var t4 := if c.isBomb && !c.isRevealed then BombNormal else t3;
      var t5 := if c.isBomb && c.isFlagged then TileFlag else t4;
      var t6 := if c.isBomb && c.isRevealed then BombRed else t5;
      if c.isFlagged && !c.isBomb then BombCross else t6
  }

  /** A cell with a real neighbour count always gets a tile sprite (0..15),
      never a digit or a face; a revealed, unflagged non-bomb shows its count. */
  lemma TileInRange(c: Cell, state: GameState)
    requires 0 <= c.closeBombs <= 8
    ensures 0 <= Tile(c, state) <= BombCross
    ensures !c.isBomb && c.isRevealed && !c.isFlagged ==> Tile(c, state) == c.closeBombs
  {
  }

  // ---------------------------------------------------------------------------
  // drawNumbers: the three sprites of a counter

  datatype Digits = Digits(hundreds: int, tens: int, ones: int)

  /** The bomb counter's sprites: C's truncating division and remainder on
      bombs and on its absolute value, then the minus-sign and blank overrides
      in the program's order. */
  function BombDigits(bombs: int): (d: Digits)
    ensures d.ones == Abs(bombs) % 10 + DigitZero
    ensures 0 <= bombs < 10 ==> d == Digits(Blank, Blank, bombs + DigitZero)
    ensures -10 < bombs < 0 ==> d == Digits(Blank, Minus, -bombs + DigitZero)
    ensures bombs <= -10 ==> d.hundreds == Minus
  {
    var h0 := CDiv(bombs, 100) + DigitZero;
    var t0 := CDiv(CMod(Abs(bombs), 100), 10) + DigitZero;
    var o := CMod(Abs(bombs), 10) + DigitZero;
    var h1 := if bombs <= -10 then Minus else h0;
    var t1 := if bombs < 0 && bombs > -10 then Minus else t0;
    var h2 := if bombs < 100 && bombs > -10 then Blank else h1;
    var t2 := if bombs < 10 && bombs >= 0 then Blank else t1;
    Digits(h2, t2, o)
  }

  /** The timer's sprites: C's truncating division and remainder, no overrides. */
  function SecondDigits(lastSecond: int): (d: Digits)
    ensures lastSecond >= 0 ==>
      d == Digits(lastSecond / 100 + DigitZero, lastSecond % 100 / 10 + DigitZero, lastSecond % 10 + DigitZero)
  {
    Digits(CDiv(lastSecond, 100) + DigitZero, CDiv(CMod(lastSecond, 100), 10) + DigitZero,
           CMod(lastSecond, 10) + DigitZero)
  }

  /** The value of one digit sprite; blank and minus count as zero. */
  function DigitValue(s: int): int {
    if DigitZero <= s < DigitZero + 10 then s - DigitZero else 0
  }

  /** The number a reader sees in three counter sprites. */
  function Shown(d: Digits): int {
    var magnitude := 100 * DigitValue(d.hundreds) + 10 * DigitValue(d.tens) + DigitValue(d.ones);
    if d.hundreds == Minus || d.tens == Minus then -magnitude else magnitude
  }

  /** Every sprite is a digit, the minus or the blank. */
  predicate CounterSprites(d: Digits) {
    && DigitZero <= d.hundreds <= Blank
    && DigitZero <= d.tens <= Blank
    && DigitZero <= d.ones <= Blank
  }

  /** From -99 to 999 the bomb counter shows exactly its value. */
  lemma BombDigitsShown(bombs: int)
    requires -99 <= bombs <= 999
    ensures CounterSprites(BombDigits(bombs)) && Shown(BombDigits(bombs)) == bombs
  {
    var a := Abs(bombs);
    ThreeDigits(a);
    var d := BombDigits(bombs);
    assert CMod(a, 100) == a % 100 && CDiv(a % 100, 10) == a % 100 / 10 && CMod(a, 10) == a % 10;
    if bombs >= 0 {
      assert a == bombs && CDiv(bombs, 100) == a / 100;
      assert d == Digits(if bombs < 100 then Blank else a / 100 + DigitZero,
                         if bombs < 10 then Blank else a % 100 / 10 + DigitZero, a % 10 + DigitZero);
    } else {
      assert a == -bombs && a < 100;
      assert d == Digits(if bombs <= -10 then Minus else Blank,
                         if bombs > -10 then Minus else a % 100 / 10 + DigitZero, a % 10 + DigitZero);
    }
  }

  /** The decimal digits of a number below 1000. */
  lemma ThreeDigits(a: int)
    requires 0 <= a <= 999
    ensures 0 <= a / 100 < 10 && 0 <= a % 100 / 10 < 10 && 0 <= a % 10 < 10
    ensures a == 100 * (a / 100) + 10 * (a % 100 / 10) + a % 10
    ensures a < 100 ==> a / 100 == 0
    ensures a < 10 ==> a % 100 / 10 == 0
  {
    var h, r := a / 100, a % 100;
    var t, o := r / 10, r % 10;
    assert a == 100 * h + r && r == 10 * t + o;
    DivModUnique(a, 10, 10 * h + t, o);
  }

  /** Below -99 the counter shows a minus and the last two digits only. */
  lemma BombDigitsTruncated(bombs: int)
    requires bombs <= -100
    ensures CounterSprites(BombDigits(bombs)) && Shown(BombDigits(bombs)) == -(Abs(bombs) % 100)
  {
  }

  /** From 0 to 999 seconds the timer shows exactly its value. */
  lemma SecondDigitsShown(lastSecond: int)
    requires 0 <= lastSecond <= 999
    ensures CounterSprites(SecondDigits(lastSecond)) && Shown(SecondDigits(lastSecond)) == lastSecond
  {
  }

  /** The -1 main stores on a restart selects sprite 15 for the ones place. */
  lemma SecondDigitsRestart()
    ensures SecondDigits(-1) == Digits(DigitZero, DigitZero, BombCross)
  {
  }

  // ---------------------------------------------------------------------------
  // process_input: the mouse

  /** The state process_input works on: the grid, the game state, the face
      sprite, the bomb counter and the static cell of the last button press. */
  datatype Game = Game(grid: Grid, state: GameState, face: int, bombCount: int, pressed: Pos)

  datatype Button = Left | Right | OtherButton

  datatype Mouse = Down(button: Button, x: int, y: int) | Up(button: Button, x: int, y: int)

  /** The grid cell under a window position, by C's truncating division. */
  function CellAt(mx: int, my: int): Pos {
    (CDiv(mx - CanvasX, CellSize), CDiv(my - CanvasY, CellSize))
  }

  predicate InCanvas(mx: int, my: int) {
    mx >= CanvasX && CellAt(mx, my).0 < Size && my >= CanvasY && CellAt(mx, my).1 < Size
  }

  lemma InCanvasCell(mx: int, my: int)
    requires InCanvas(mx, my)
    ensures InSquare(Size, CellAt(mx, my))
  {
  }

  predicate OnFace(mx: int, my: int) {
    196 <= mx <= 236 && 26 <= my <= 62
  }

  /** The grid accesses of a release stay inside the grid: the right button
      reads the cell under the mouse cursor unconditionally; the pressed cell
      is written when it differs from that cell, by a left release over the
      canvas while playing and by a right release on an unrevealed cell while
      playing. */
  predicate Safe(game: Game, e: Mouse) {
    && Shaped(game.grid)
    && (e.Up? && e.button == Right ==> InSquare(Size, CellAt(e.x, e.y)))
    && (e.Up? && e.button == Left && InCanvas(e.x, e.y) && game.state == Playing && game.pressed != CellAt(e.x, e.y)
        ==> InSquare(Size, game.pressed))
    && (e.Up? && e.button == Right && InSquare(Size, CellAt(e.x, e.y)) && game.state == Playing
        && !At(game.grid, Size, CellAt(e.x, e.y)).isRevealed && game.pressed != CellAt(e.x, e.y)
        ==> InSquare(Size, game.pressed))
  }

  /** Set or clear the isPressed flag of one cell. */
  function SetPressed(g: Grid, p: Pos, on: bool): (r: Grid)
    requires Shaped(g) && InSquare(Size, p)
    ensures Shaped(r)
    ensures At(r, Size, p) == At(g, Size, p).(isPressed := on)
    ensures forall q | InSquare(Size, q) && q != p :: At(r, Size, q) == At(g, Size, q)
  {
    Put(g, Size, p, At(g, Size, p).(isPressed := on))
  }

  /** A button press: remember the cell; the left button on the face restarts,
      on an unflagged canvas cell while playing presses it and shocks the face;
      the right button presses a canvas cell while playing. */
  function Press(game: Game, b: Button, mx: int, my: int): (r: Game)
    requires Shaped(game.grid)
    ensures Shaped(r.grid) && r.pressed == CellAt(mx, my)
  {
    var p := CellAt(mx, my);
    var g1 := game.(pressed := p);
    if b == Left then
      var g2 := if OnFace(mx, my) then g1.(face := FacePressed, state := Restarting) else g1;
      if InCanvas(mx, my) && g2.state == Playing && !At(g2.grid, Size, p).isFlagged then
        g2.(grid := SetPressed(g2.grid, p, true), face := FaceShock)
      else g2
    else if b == Right then
      if InCanvas(mx, my) && g1.state == Playing then g1.(grid := SetPressed(g1.grid, p, true)) else g1
    else g1
  }

  /** A left release over the canvas while playing: on the pressed, unflagged
      cell a bomb ends the game, otherwise the flood fill runs; elsewhere the
      pressed cell is released. */
  function ReleaseLeft(game: Game, mx: int, my: int): (r: Game)
    requires Safe(game, Up(Left, mx, my))
    ensures Shaped(r.grid)
    ensures r.pressed == game.pressed && r.bombCount == game.bombCount
    ensures r.state == game.state || r.state == GameOver
    ensures !(InCanvas(mx, my) && game.state == Playing) ==> r.grid == game.grid && r.state == game.state
  {
    var g1 := if OnFace(mx, my) && game.state == Playing then game.(face := FaceNormal) else game;
    if !(InCanvas(mx, my) && g1.state == Playing) then g1
    else
      var p := CellAt(mx, my);
      var g2 := g1.(face := FaceNormal);
      if g2.pressed == p && !At(g2.grid, Size, p).isFlagged then
        var c := At(g2.grid, Size, p);
        var g3 := if c.isBomb then
                    g2.(grid := Put(g2.grid, Size, p, c.(isRevealed := true, isPressed := false)), state := GameOver)
                  else g2;
        var g4 := g3.(grid := SetPressed(g3.grid, p, false));
        g4.(grid := RevealTiles(g4.grid, p))
      else g2.(grid := SetPressed(g2.grid, g2.pressed, false))
  }

  /** A right release on an unrevealed cell while playing: on the pressed cell
      the flag is toggled and the counter moves the other way; elsewhere the
      pressed cell is released. */
  function ReleaseRight(game: Game, mx: int, my: int): (r: Game)
    requires Safe(game, Up(Right, mx, my))
    ensures Shaped(r.grid)
    ensures r.pressed == game.pressed && r.state == game.state && r.face == game.face
    ensures At(game.grid, Size, CellAt(mx, my)).isRevealed || game.state != Playing ==> r == game
    ensures -1 <= r.bombCount - game.bombCount <= 1
  {
    var p := CellAt(mx, my);
    var c := At(game.grid, Size, p);
    if c.isRevealed || game.state != Playing then game
    else if game.pressed == p then
      if !c.isFlagged then
        game.(grid := Put(game.grid, Size, p, c.(isFlagged := true, isPressed := false)), bombCount := game.bombCount - 1)
      else
        game.(grid := Put(game.grid, Size, p, c.(isFlagged := false, isPressed := false)), bombCount := game.bombCount + 1)
    else game.(grid := SetPressed(game.grid, game.pressed, false))
  }

  /** One mouse event of process_input. */
  function Handle(game: Game, e: Mouse): (r: Game)
    requires Safe(game, e)
    ensures Shaped(r.grid)
    ensures e.Down? ==> r.pressed == CellAt(e.x, e.y) && r.bombCount == game.bombCount
    ensures e.Up? ==> r.pressed == game.pressed
    ensures e.Up? && e.button == OtherButton ==> r == game
    ensures -1 <= r.bombCount - game.bombCount <= 1
  {
    match e
    case Down(b, mx, my) => Press(game, b, mx, my)
    case Up(b, mx, my) =>
      if b == Left then ReleaseLeft(game, mx, my)
      else if b == Right then ReleaseRight(game, mx, my)
      else game
  }

  /** A click on the face button, press then release, is always handled: the
      press records a cell above the grid and asks for a restart, and the
      release, no longer playing, leaves the game as the press left it. */
  lemma FaceClick(game: Game)
    requires Shaped(game.grid)
    ensures var r := Handle(game, Down(Left, 200, 40));
      && r.state == Restarting && r.face == FacePressed && !InSquare(Size, r.pressed)
      && Safe(r, Up(Left, 200, 40)) && Handle(r, Up(Left, 200, 40)) == r
  {
  }

  /** A right release on the pressed, unrevealed cell while playing flips its
      flag, releases it and moves the counter by one against the flag; nothing
      else changes. */
  lemma FlagToggle(game: Game, mx: int, my: int)
    requires Safe(game, Up(Right, mx, my))
    requires game.state == Playing && game.pressed == CellAt(mx, my)
    requires !At(game.grid, Size, CellAt(mx, my)).isRevealed
    ensures var p := CellAt(mx, my);
      var c := At(game.grid, Size, p);
      var r := Handle(game, Up(Right, mx, my));
      && r.grid == Put(game.grid, Size, p, c.(isFlagged := !c.isFlagged, isPressed := false))
      && r.bombCount == game.bombCount + (if c.isFlagged then 1 else -1)
      && r == game.(grid := r.grid, bombCount := r.bombCount)
  {
  }

  /** A left release over the pressed, unflagged canvas cell while playing:
      a bomb there is revealed and ends the game, and nothing else changes;
      any other cell is released and flood-filled from, so it ends revealed
      and the game goes on. The face is reset either way. */
  lemma LeftClick(game: Game, mx: int, my: int)
    requires Safe(game, Up(Left, mx, my))
    requires game.state == Playing && InCanvas(mx, my) && game.pressed == CellAt(mx, my)
    requires !At(game.grid, Size, CellAt(mx, my)).isFlagged
    ensures var p := CellAt(mx, my);
      var c := At(game.grid, Size, p);
      var r := Handle(game, Up(Left, mx, my));
      && r.state == (if c.isBomb then GameOver else Playing)
      && r == game.(grid := r.grid, state := r.state, face := FaceNormal)
      && (c.isBomb ==> r.grid == Put(game.grid, Size, p, c.(isRevealed := true, isPressed := false)))
      && (!c.isBomb ==> r.grid == RevealTiles(SetPressed(game.grid, p, false), p))
      && (!c.isBomb ==> p in Revealed(r.grid))
  {
    var p := CellAt(mx, my);
    var c := At(game.grid, Size, p);
    var r := Handle(game, Up(Left, mx, my));
    if c.isBomb {
      var g3 := Put(game.grid, Size, p, c.(isRevealed := true, isPressed := false));
      var g4 := SetPressed(g3, p, false);
      assert g4 == g3 by {
        SameCells(g4, g3);
      }
      assert r.grid == RevealTiles(g4, p);
    } else {
      var g4 := SetPressed(game.grid, p, false);
      assert At(RevealTiles(g4, p), Size, p).isRevealed;
    }
  }

  /** Two shaped grids with the same cells are equal. */
  lemma SameCells(a: Grid, b: Grid)
    requires Shaped(a) && Shaped(b)
    requires forall q | InSquare(Size, q) :: At(a, Size, q) == At(b, Size, q)
    ensures a == b
  {
    forall y | 0 <= y < Size
      ensures a[y] == b[y]
    {
      assert forall x | 0 <= x < Size :: a[y][x] == At(a, Size, (x, y)) == At(b, Size, (x, y));
    }
  }

  /** Any other left release over the canvas while playing (a different cell
      from the pressed one, or a flagged cell) only releases the pressed cell
      and resets the face. */
  lemma LeftReleaseElsewhere(game: Game, mx: int, my: int)
    requires Safe(game, Up(Left, mx, my))
    requires game.state == Playing && InCanvas(mx, my)
    requires game.pressed != CellAt(mx, my) || At(game.grid, Size, CellAt(mx, my)).isFlagged
    ensures InSquare(Size, game.pressed)
    ensures Handle(game, Up(Left, mx, my))
         == game.(grid := SetPressed(game.grid, game.pressed, false), face := FaceNormal)
  {
  }

  /** No revealed cell carries a flag. */
  ghost predicate NoFlagRevealed(g: Grid)
    requires Shaped(g)
  {
    forall p | InSquare(Size, p) :: !(At(g, Size, p).isRevealed && At(g, Size, p).isFlagged)
  }

  /** No bomb is revealed. */
  ghost predicate NoBombRevealed(g: Grid)
    requires Shaped(g)
  {
    forall p | InSquare(Size, p) :: !(At(g, Size, p).isRevealed && At(g, Size, p).isBomb)
  }

  /** What holds between events: the counter is the bomb total less the flags,
      no revealed cell carries a flag, and while playing no bomb is revealed. */
  ghost predicate Consistent(game: Game, numBombs: int)
    requires Shaped(game.grid)
  {
    && game.bombCount == numBombs - |Flagged(game.grid)|
    && NoFlagRevealed(game.grid)
    && (game.state == Playing ==> NoBombRevealed(game.grid))
  }

  /** A new game is consistent. */
  lemma InitConsistent(layout: Layout, numBombs: int, pressed: Pos)
    requires WellFormed(layout, Size) && numBombs == |Bombs(InitGrid(layout))|
    ensures Consistent(Game(InitGrid(layout), Playing, FaceNormal, numBombs, pressed), numBombs)
  {
    assert Flagged(InitGrid(layout)) == {};
  }

  /** Replacing one cell by one that is not both revealed and flagged (or
      revealed and a bomb) keeps the grid free of such cells. */
  lemma PutKeeps(g: Grid, p: Pos, c: Cell)
    requires Shaped(g) && InSquare(Size, p)
    ensures NoFlagRevealed(g) && !(c.isRevealed && c.isFlagged) ==> NoFlagRevealed(Put(g, Size, p, c))
    ensures NoBombRevealed(g) && !(c.isRevealed && c.isBomb) ==> NoBombRevealed(Put(g, Size, p, c))
  {
  }

  /** Changing only isPressed keeps flags, bombs and revealed cells. */
  lemma SetPressedKeeps(g: Grid, p: Pos, on: bool)
    requires Shaped(g) && InSquare(Size, p)
    ensures Flagged(SetPressed(g, p, on)) == Flagged(g)
    ensures NoFlagRevealed(g) ==> NoFlagRevealed(SetPressed(g, p, on))
    ensures NoBombRevealed(g) ==> NoBombRevealed(SetPressed(g, p, on))
  {
    var c := At(g, Size, p);
    CellSetPut(g, Size, (c: Cell) => c.isFlagged, p, c.(isPressed := on));
    PutKeeps(g, p, c.(isPressed := on));
  }

  /** The flood fill keeps the flags and reveals neither bombs nor flags. */
  lemma RevealTilesKeeps(g: Grid, p: Pos)
    requires Shaped(g)
    ensures Flagged(RevealTiles(g, p)) == Flagged(g)
    ensures NoFlagRevealed(g) ==> NoFlagRevealed(RevealTiles(g, p))
    ensures NoBombRevealed(g) ==> NoBombRevealed(RevealTiles(g, p))
  {
  }

  /** Every mouse event keeps the game consistent. */
  lemma HandleConsistent(game: Game, e: Mouse, numBombs: int)
    requires Safe(game, e) && Consistent(game, numBombs)
    ensures Consistent(Handle(game, e), numBombs)
  {
    match e
    case Down(b, mx, my) =>
      PressConsistent(game, b, mx, my, numBombs);
    case Up(b, mx, my) =>
      if b == Left {
        ReleaseLeftConsistent(game, mx, my, numBombs);
      } else if b == Right {
        ReleaseRightConsistent(game, mx, my, numBombs);
      }
  }

  lemma PressConsistent(game: Game, b: Button, mx: int, my: int, numBombs: int)
    requires Shaped(game.grid) && Consistent(game, numBombs)
    ensures Consistent(Press(game, b, mx, my), numBombs)
  {
    var p := CellAt(mx, my);
    if InCanvas(mx, my) {
      SetPressedKeeps(game.grid, p, true);
    }
  }

  lemma ReleaseLeftConsistent(game: Game, mx: int, my: int, numBombs: int)
    requires Safe(game, Up(Left, mx, my)) && Consistent(game, numBombs)
    ensures Consistent(ReleaseLeft(game, mx, my), numBombs)
  {
    var g1 := if OnFace(mx, my) && game.state == Playing then game.(face := FaceNormal) else game;
    if InCanvas(mx, my) && g1.state == Playing {
      var p := CellAt(mx, my);
      var g2 := g1.(face := FaceNormal);
      if g2.pressed == p && !At(g2.grid, Size, p).isFlagged {
        var c := At(g2.grid, Size, p);
        var c' := c.(isRevealed := true, isPressed := false);
        var g3 := if c.isBomb then g2.(grid := Put(g2.grid, Size, p, c'), state := GameOver) else g2;
        if c.isBomb {
          CellSetPut(g2.grid, Size, (c: Cell) => c.isFlagged, p, c');
          PutKeeps(g2.grid, p, c');
        }
        assert Consistent(g3, numBombs);
        var g4 := g3.(grid := SetPressed(g3.grid, p, false));
        SetPressedKeeps(g3.grid, p, false);
        assert Consistent(g4, numBombs);
        RevealTilesKeeps(g4.grid, p);
      } else {
        SetPressedKeeps(g2.grid, g2.pressed, false);
      }
    }
  }

  lemma ReleaseRightConsistent(game: Game, mx: int, my: int, numBombs: int)
    requires Safe(game, Up(Right, mx, my)) && Consistent(game, numBombs)
    ensures Consistent(ReleaseRight(game, mx, my), numBombs)
  {
    var p := CellAt(mx, my);
    var c := At(game.grid, Size, p);
    if c.isRevealed || game.state != Playing {
      assert ReleaseRight(game, mx, my) == game;
    } else if game.pressed == p {
      var c' := c.(isFlagged := !c.isFlagged, isPressed := false);
      assert ReleaseRight(game, mx, my).grid == Put(game.grid, Size, p, c');
      CellSetPut(game.grid, Size, (c: Cell) => c.isFlagged, p, c');
      PutKeeps(game.grid, p, c');
      var flags := Flagged(game.grid);
      if c.isFlagged {
        assert Flagged(Put(game.grid, Size, p, c')) == flags - {p};
      } else {
        assert Flagged(Put(game.grid, Size, p, c')) == flags + {p};
      }
    } else {
      assert InSquare(Size, game.pressed);
      assert ReleaseRight(game, mx, my) == game.(grid := SetPressed(game.grid, game.pressed, false));
      SetPressedKeeps(game.grid, game.pressed, false);
    }
  }
}
