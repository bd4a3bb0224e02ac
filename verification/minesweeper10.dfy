/** The 10x10 game of src/graphics.c and src/main.c: rows 0 and 1 sit under
    the header and the playfield is rows 2..9. Covers initializeGrid with the
    bomb layout as an input, countNeighboringBombs and revealTiles (which
    ignores flags), the mouse handling of process_input, and update's sprite
    indices and win check. */
module Minesweeper10 {
  import opened Machine
  import opened MineField

  const Size := 10
  const TileSize := 32
  /** The first playfield row. */
  const Top := 2
  const PlayfieldCells := (Size - Top) * Size

  // smileyExpression values
  const Smiley := 0
  const SmileyPressed := 1
  const Shocked := 2
  const Sunglasses := 3
  const Dead := 4

  // Cell indices (sprites): 0 normal, 1 pressed, 2 flag, 3 question mark,
  // 5 bomb, 6 red bomb, 8..15 the counts 1..8
  const Normal := 0
  const Opened := 1
  const Flag := 2
  const Question := 3
  const Bomb := 5
  const RedBomb := 6
  const CountBase := 7

  datatype Cell = Cell(index: int, isBomb: bool, isRevealed: bool, closeBombs: int)

  type Grid = seq<seq<Cell>>

  predicate Shaped(g: Grid) {
    WellFormed(g, Size)
  }

  predicate Playfield(p: Pos) {
    0 <= p.0 < Size && Top <= p.1 < Size
  }

  function Bombs(g: Grid): set<Pos>
    requires Shaped(g)
  {
    CellSet(g, Size, (c: Cell) => c.isBomb)
  }

  function Revealed(g: Grid): set<Pos>
    requires Shaped(g)
  {
    CellSet(g, Size, (c: Cell) => c.isRevealed)
  }

  function BlankCells(g: Grid): set<Pos>
    requires Shaped(g)
  {
    CellSet(g, Size, (c: Cell) => c.closeBombs <= 0)
  }

  /** Rows 0 and 1 as the zero-initialised global leaves them: no bomb, not
      revealed, index and count zero. */
  predicate HeaderUntouched(g: Grid)
    requires Shaped(g)
  {
    forall x, y | 0 <= x < Size && 0 <= y < Top :: g[y][x] == Cell(0, false, false, 0)
  }

  /** The globals process_input, update and initializeGrid share. */
  datatype Game = Game(
    grid: Grid, smiley: int, totalBombs: int, bombCounter: int, totalCells: int,
    totalRevealed: int, gameOver: bool, restart: bool, mouse: Pos, cell: Pos)

  // ---------------------------------------------------------------------------
  // initializeGrid

  type Layout = seq<seq<bool>>

  /** The first loop: each playfield cell gets the layout's bomb flag, is
      hidden and gets index 0; its closeBombs is left as it was. */
  function PlaceBombs(g: Grid, layout: Layout): (r: Grid)
    requires Shaped(g) && WellFormed(layout, Size)
    ensures Shaped(r)
  {
    seq(Size, y requires 0 <= y < Size => seq(Size, x requires 0 <= x < Size =>
      if y < Top then g[y][x] else g[y][x].(isBomb := layout[y][x], isRevealed := false, index := Normal)))
  }

  /** The second loop: each playfield non-bomb gets countNeighboringBombs over
      the whole 10x10 grid. */
  function CountAll(g: Grid): (r: Grid)
    requires Shaped(g)
    ensures Shaped(r)
  {
    var bombs := Bombs(g);
    seq(Size, y requires 0 <= y < Size => seq(Size, x requires 0 <= x < Size =>
      if y < Top || g[y][x].isBomb then g[y][x]
      else g[y][x].(closeBombs := CountNeighbouringBombs(bombs, Size, (x, y)))))
  }

  /** The grid initializeGrid leaves: the bombs placed, then the counts. */
  function InitGrid(g: Grid, layout: Layout): (r: Grid)
    requires Shaped(g) && WellFormed(layout, Size)
    ensures Shaped(r)
  {
    CountAll(PlaceBombs(g, layout))
  }

  /** The playfield gets the layout's bombs, hidden, index 0, and every
      non-bomb its neighbour count; the header rows stay as they were. */
  lemma InitGridCells(g: Grid, layout: Layout)
    requires Shaped(g) && WellFormed(layout, Size)
    ensures var r := InitGrid(g, layout);
      forall p | InSquare(Size, p) && p.1 < Top :: At(r, Size, p) == At(g, Size, p)
    ensures var r := InitGrid(g, layout);
      forall p | Playfield(p) ::
        var c := At(r, Size, p);
        && c.isBomb == At(layout, Size, p) && !c.isRevealed && c.index == Normal
        && c.closeBombs == if c.isBomb then At(g, Size, p).closeBombs else |NearBombs(Bombs(r), Size, p)|
  {
    var placed := PlaceBombs(g, layout);
    var r := CountAll(placed);
    CountAllBombs(placed);
    forall p | Playfield(p) && !At(r, Size, p).isBomb
      ensures At(r, Size, p).closeBombs == |NearBombs(Bombs(r), Size, p)|
    {
      CountAllCell(placed, p);
      CountIsNearBombs(Bombs(r), Size, p);
    }
  }

  lemma CountAllCell(g: Grid, p: Pos)
    requires Shaped(g) && Playfield(p) && !At(g, Size, p).isBomb
    ensures At(CountAll(g), Size, p).closeBombs == CountNeighbouringBombs(Bombs(g), Size, p)
  {
  }

  lemma CountAllBombs(g: Grid)
    requires Shaped(g)
    ensures Bombs(CountAll(g)) == Bombs(g)
  {
    forall p | InSquare(Size, p)
      ensures At(CountAll(g), Size, p).isBomb == At(g, Size, p).isBomb
    {
    }
  }

  lemma CountAllBombSet(g: Grid)
    requires Shaped(g)
    ensures RowsSet(CountAll(g), Size, Top, (c: Cell) => c.isBomb) == RowsSet(g, Size, Top, (c: Cell) => c.isBomb)
  {
    CountAllBombs(g);
  }

  /** initializeGrid: the grid as InitGrid leaves it; totalBombs and
      bombCounter count the playfield bombs, totalCells is the 80 playfield
      cells, the face smiles and the game is on. */
  method InitializeGrid(game: Game, layout: Layout) returns (r: Game)
    requires Shaped(game.grid) && WellFormed(layout, Size)
    ensures r.grid == InitGrid(game.grid, layout)
    ensures r.totalBombs == r.bombCounter == |RowsSet(r.grid, Size, Top, (c: Cell) => c.isBomb)|
    ensures r.totalCells == PlayfieldCells
    ensures r.smiley == Smiley && !r.gameOver
    ensures r == game.(grid := r.grid, smiley := r.smiley, totalBombs := r.totalBombs,
                       bombCounter := r.bombCounter, totalCells := r.totalCells, gameOver := r.gameOver)
  {
    var placed := PlaceBombs(game.grid, layout);
    var bombs := CountCells(placed, Size, Top, (c: Cell) => c.isBomb);
    var cells := CountCells(placed, Size, Top, (c: Cell) => true);
    assert RowsSet(placed, Size, Top, (c: Cell) => true) == Cells(Field(Size, Top, {}, {}));
    PlayfieldSize();
    var g := CountAll(placed);
    CountAllBombSet(placed);
    r := game.(grid := g, smiley := Smiley, totalBombs := bombs, bombCounter := bombs, totalCells := cells,
               gameOver := false);
  }

  lemma PlayfieldSize()
    ensures |Cells(Field(Size, Top, {}, {}))| == PlayfieldCells
  {
    CellsSize(Field(Size, Top, {}, {}));
  }

  /** With the header rows free of bombs, the count stored in a playfield cell
      is the number of playfield bombs around it. */
  lemma CountSeesPlayfield(g: Grid, p: Pos)
    requires Shaped(g) && HeaderUntouched(g) && Playfield(p)
    ensures CountNeighbouringBombs(Bombs(g), Size, p)
         == |NearBombs(RowsSet(g, Size, Top, (c: Cell) => c.isBomb), Size, p)|
  {
    CountLocal(Bombs(g), RowsSet(g, Size, Top, (c: Cell) => c.isBomb), Size, p);
    CountIsNearBombs(RowsSet(g, Size, Top, (c: Cell) => c.isBomb), Size, p);
  }

  // ---------------------------------------------------------------------------
  // revealTiles

  /** The board graphics.c's revealTiles floods: the whole 10x10 grid, header
      rows included, stopped by bombs only. */
  function BoardAsWritten(g: Grid): Field
    requires Shaped(g)
  {
    Field(Size, 0, Bombs(g), BlankCells(g))
  }

  /** The board the game means: the playfield rows only. */
  function Board(g: Grid): Field
    requires Shaped(g)
  {
    Field(Size, Top, Bombs(g), BlankCells(g))
  }

  /** The grid with exactly the cells of s revealed. */
  function WithRevealed(g: Grid, s: set<Pos>): (r: Grid)
    requires Shaped(g)
    ensures Shaped(r) && Revealed(r) == s * Cells(Field(Size, 0, {}, {}))
    ensures forall q | InSquare(Size, q) :: At(r, Size, q) == At(g, Size, q).(isRevealed := q in s)
  {
    seq(Size, y requires 0 <= y < Size => seq(Size, x requires 0 <= x < Size =>
      g[y][x].(isRevealed := (x, y) in s)))
  }

  lemma WithRevealedSame(g: Grid)
    requires Shaped(g)
    ensures WithRevealed(g, Revealed(g)) == g
  {
    var r := WithRevealed(g, Revealed(g));
    forall y | 0 <= y < Size
      ensures r[y] == g[y]
    {
      assert forall x | 0 <= x < Size :: r[y][x] == At(r, Size, (x, y)) == At(g, Size, (x, y));
    }
  }

  /** graphics.c's revealTiles as written: a flood over all ten rows. Only
      isRevealed changes, only from false to true and never on a bomb; flags
      (index 2) do not stop it; a call off the grid, on a revealed cell or on a
      bomb changes nothing. */
  function RevealTilesAsWritten(g: Grid, p: Pos): (r: Grid)
    requires Shaped(g)
    ensures Shaped(r) && Revealed(r) == Reveal(BoardAsWritten(g), Revealed(g), p)
    ensures forall q | InSquare(Size, q) ::
      At(r, Size, q) == At(g, Size, q).(isRevealed := At(r, Size, q).isRevealed)
    ensures forall q | InSquare(Size, q) && At(r, Size, q).isRevealed && !At(g, Size, q).isRevealed ::
      !At(g, Size, q).isBomb
    ensures forall q | InSquare(Size, q) && At(g, Size, q).isRevealed :: At(r, Size, q).isRevealed
    ensures !InSquare(Size, p) || At(g, Size, p).isRevealed || At(g, Size, p).isBomb ==> r == g
  {
    RevealSpec(BoardAsWritten(g), Revealed(g), p);
    WithRevealedSame(g);
    WithRevealed(g, Reveal(BoardAsWritten(g), Revealed(g), p))
  }

  /** Revealing a blank cell of row 2 reveals the header cell above it, and,
      because the header rows are blank too, the flood crosses them: the cell
      two columns over in row 2 is revealed even when nothing in the playfield
      leads there. */
  lemma RevealLeaksIntoHeader(g: Grid, x: int)
    requires Shaped(g) && HeaderUntouched(g) && 0 <= x && x + 2 < Size
    requires var c := At(g, Size, (x, Top)); !c.isBomb && !c.isRevealed && c.closeBombs == 0
    requires !At(g, Size, (x + 2, Top)).isBomb
    ensures At(RevealTilesAsWritten(g, (x, Top)), Size, (x, Top - 1)).isRevealed
    ensures At(RevealTilesAsWritten(g, (x, Top)), Size, (x + 2, Top)).isRevealed
  {
    var f := BoardAsWritten(g);
    var p := (x, Top);
    RevealSpec(f, Revealed(g), p);
    var r := Reveal(f, Revealed(g), p);
    assert Adjacent(p, (x, Top - 1)) && Adjacent(p, (x + 1, Top - 1));
    assert g[Top - 1][x] == Cell(0, false, false, 0) && g[Top - 1][x + 1] == Cell(0, false, false, 0);
    assert (x + 1, Top - 1) in r;
    assert (x + 1, Top - 1) !in Revealed(g) && (x + 1, Top - 1) in f.blank;
    assert Adjacent((x + 1, Top - 1), (x + 2, Top));
  }

  /** revealTiles kept to the playfield: everything RevealTilesAsWritten
      promises, and the header rows are never touched. */
  function RevealTiles(g: Grid, p: Pos): (r: Grid)
    requires Shaped(g)
    ensures Shaped(r) && Revealed(r) == Reveal(Board(g), Revealed(g), p)
    ensures forall q | InSquare(Size, q) ::
      At(r, Size, q) == At(g, Size, q).(isRevealed := At(r, Size, q).isRevealed)
    ensures forall q | InSquare(Size, q) && At(r, Size, q).isRevealed && !At(g, Size, q).isRevealed ::
      !At(g, Size, q).isBomb && Playfield(q)
    ensures forall q | InSquare(Size, q) && At(g, Size, q).isRevealed :: At(r, Size, q).isRevealed
    ensures !Playfield(p) || At(g, Size, p).isRevealed || At(g, Size, p).isBomb ==> r == g
    ensures Playfield(p) && !At(g, Size, p).isRevealed && !At(g, Size, p).isBomb ==> At(r, Size, p).isRevealed
    ensures forall q | InSquare(Size, q) && q.1 < Top :: At(r, Size, q) == At(g, Size, q)
  {
    RevealSpec(Board(g), Revealed(g), p);
    WithRevealedSame(g);
    WithRevealed(g, Reveal(Board(g), Revealed(g), p))
  }

  /** The playfield flood's extent, as for the other variant. */
  lemma RevealTilesFlood(g: Grid, p: Pos)
    requires Shaped(g)
    ensures var r := RevealTiles(g, p);
      && Closed(Board(g), Revealed(g), Revealed(r))
      && forall q | q in Revealed(r) && q !in Revealed(g) :: Reaches(Board(g), Revealed(r) - Revealed(g), p, q)
  {
    RevealSpec(Board(g), Revealed(g), p);
  }

  // ---------------------------------------------------------------------------
  // process_input: the mouse

  datatype Button = Left | Right | OtherButton

  datatype Mouse = Down(button: Button, x: int, y: int) | Up(button: Button)

  /** The grid cell under a window position. */
  function CellAt(mx: int, my: int): Pos {
    (CDiv(mx, TileSize), CDiv(my, TileSize))
  }

  predicate OnFace(mx: int, my: int) {
    136 <= mx <= 183 && 0 <= my <= 50
  }

  /** The right button's cycle on a cell index: 0 (normal) to 2 (flag) to 3
      (question mark) and back to 0; any other index stays. */
  function NextIndex(index: int): (r: int)
    ensures index !in {Normal, Flag, Question} ==> r == index
    ensures index in {Normal, Flag, Question} ==> r in {Normal, Flag, Question} && r != index
  {
    if index == Normal then Flag else if index == Flag then Question else if index == Question then Normal else index
  }

  /** A button press: remember the position and cell; the left button shocks
      the face over a playfield cell that is not flagged and presses it over the
      face button; the right button cycles the cell's index, with the counter
      going down on a hidden cell's flag and up when a question mark clears. */
  function Press(game: Game, b: Button, mx: int, my: int): (r: Game)
    requires Shaped(game.grid)
    ensures Shaped(r.grid) && r.mouse == (mx, my) && r.cell == CellAt(mx, my)
  {
    var p := CellAt(mx, my);
    var g1 := game.(mouse := (mx, my), cell := p);
    if b == Left then
      var g2 := if Playfield(p) && At(g1.grid, Size, p).index != Flag then g1.(smiley := Shocked) else g1;
      if OnFace(mx, my) then g2.(smiley := SmileyPressed) else g2
    else if b == Right && Playfield(p) then
      var c := At(g1.grid, Size, p);
      var counter :=
        if c.index == Normal && !c.isRevealed then g1.bombCounter - 1
        else if c.index == Question then g1.bombCounter + 1
        else g1.bombCounter;
      g1.(grid := Put(g1.grid, Size, p, c.(index := NextIndex(c.index))), bombCounter := counter)
    else g1
  }

  /** A release of any button but the right one, once the flood fill at the
      cell of the last press has left the grid fill: the face relaxes; over
      the playfield a bomb at that cell ends the game with the red-bomb index,
      else the filled grid is kept; over the face button a restart is
      requested. */
  function ReleaseAfterFill(game: Game, fill: Grid): (r: Game)
    requires Shaped(game.grid) && Shaped(fill)
    ensures Shaped(r.grid)
  {
    var p := game.cell;
    var g1 := game.(smiley := Smiley);
    var g2 :=
      if !Playfield(p) then g1
      else if At(fill, Size, p).isBomb then
        g1.(grid := Put(fill, Size, p, At(fill, Size, p).(index := RedBomb, isRevealed := true)), gameOver := true,
            smiley := Dead)
      else g1.(grid := fill);
    if OnFace(game.mouse.0, game.mouse.1) then g2.(restart := true) else g2
  }

  /** The release as main.c performs it, with revealTiles as written. */
  function Release(game: Game): (r: Game)
    requires Shaped(game.grid)
    ensures Shaped(r.grid)
    ensures Playfield(game.cell) ==>
      r == ReleaseAfterFill(game, RevealTilesAsWritten(game.grid, game.cell))
    ensures !Playfield(game.cell) ==> r.grid == game.grid && r.gameOver == game.gameOver
  {
    var p := game.cell;
    ReleaseAfterFill(game, if Playfield(p) then RevealTilesAsWritten(game.grid, p) else game.grid)
  }

  /** The release with the flood fill kept to the playfield. */
  function ReleaseCorrected(game: Game): (r: Game)
    requires Shaped(game.grid)
    ensures Shaped(r.grid)
    ensures Playfield(game.cell) ==> r == ReleaseAfterFill(game, RevealTiles(game.grid, game.cell))
    ensures !Playfield(game.cell) ==> r.grid == game.grid && r.gameOver == game.gameOver
  {
    var p := game.cell;
    ReleaseAfterFill(game, if Playfield(p) then RevealTiles(game.grid, p) else game.grid)
  }

  /** One mouse event of process_input, as written. */
  function Handle(game: Game, e: Mouse): (r: Game)
    requires Shaped(game.grid)
    ensures Shaped(r.grid)
    ensures e.Up? && e.button == Right ==> r == game
    ensures e.Down? ==> r.mouse == (e.x, e.y) && r.cell == CellAt(e.x, e.y)
  {
    match e
    case Down(b, mx, my) => Press(game, b, mx, my)
    case Up(b) => if b != Right then Release(game) else game
  }

  /** One mouse event of process_input with the playfield-bounded fill. */
  function HandleCorrected(game: Game, e: Mouse): (r: Game)
    requires Shaped(game.grid)
    ensures Shaped(r.grid)
    ensures e.Up? && e.button == Right ==> r == game
    ensures e.Down? ==> r == Handle(game, e)
  {
    match e
    case Down(b, mx, my) => Press(game, b, mx, my)
    case Up(b) => if b != Right then ReleaseCorrected(game) else game
  }

  /** A right press on a playfield cell advances its index through 0, 2, 3;
      the counter drops on 0 -> 2 of a hidden cell and rises on 3 -> 0; no
      other cell and nothing else changes. */
  lemma RightClickCycle(game: Game, mx: int, my: int)
    requires Shaped(game.grid) && Playfield(CellAt(mx, my))
    ensures var p := CellAt(mx, my);
      var c := At(game.grid, Size, p);
      var r := Handle(game, Down(Right, mx, my));
      && r.grid == Put(game.grid, Size, p, c.(index := NextIndex(c.index)))
      && r.bombCounter - game.bombCounter ==
           (if c.index == Normal && !c.isRevealed then -1 else if c.index == Question then 1 else 0)
      && r == game.(grid := r.grid, bombCounter := r.bombCounter, mouse := (mx, my), cell := p)
  {
  }

  /** Releasing on a playfield bomb ends the game: the bomb is revealed with
      the red-bomb index and the face is dead; no other cell changes. The
      fill, as written or kept to the playfield, stops at once on a bomb. */
  lemma ReleaseOnBomb(game: Game)
    requires Shaped(game.grid) && Playfield(game.cell) && At(game.grid, Size, game.cell).isBomb
    ensures var r := Handle(game, Up(Left));
      && r == HandleCorrected(game, Up(Left))
      && r.gameOver && r.smiley == Dead
      && At(r.grid, Size, game.cell).isRevealed && At(r.grid, Size, game.cell).index == RedBomb
      && forall q | InSquare(Size, q) && q != game.cell :: At(r.grid, Size, q) == At(game.grid, Size, q)
  {
  }

  /** A release off every bomb, as written, reveals no bomb and keeps the game
      going; over the playfield the revealed set becomes the fill's over all
      ten rows. */
  lemma ReleaseSafe(game: Game)
    requires Shaped(game.grid) && !(Playfield(game.cell) && At(game.grid, Size, game.cell).isBomb)
    ensures var r := Handle(game, Up(Left));
      && r.gameOver == game.gameOver
      && (Playfield(game.cell) ==>
            Revealed(r.grid) == Reveal(BoardAsWritten(game.grid), Revealed(game.grid), game.cell))
      && forall q | InSquare(Size, q) && At(r.grid, Size, q).isRevealed && !At(game.grid, Size, q).isRevealed ::
           !At(game.grid, Size, q).isBomb
  {
  }

  /** The release as written can reveal a header cell: a click on a hidden
      blank cell of row 2 reveals the cell above it. */
  lemma ReleaseRevealsHeader(game: Game)
    requires Shaped(game.grid) && HeaderUntouched(game.grid)
    requires game.cell.1 == Top && 0 <= game.cell.0 && game.cell.0 + 2 < Size
    requires var c := At(game.grid, Size, game.cell); !c.isBomb && !c.isRevealed && c.closeBombs == 0
    requires !At(game.grid, Size, (game.cell.0 + 2, Top)).isBomb
    ensures var r := Handle(game, Up(Left));
      && At(r.grid, Size, (game.cell.0, Top - 1)).isRevealed
      && !At(game.grid, Size, (game.cell.0, Top - 1)).isRevealed
  {
    RevealLeaksIntoHeader(game.grid, game.cell.0);
  }

  /** A release off every bomb with the playfield-bounded fill reveals no bomb
      and nothing outside the playfield, and keeps the game going. */
  lemma ReleaseSafeCorrected(game: Game)
    requires Shaped(game.grid) && !(Playfield(game.cell) && At(game.grid, Size, game.cell).isBomb)
    ensures var r := HandleCorrected(game, Up(Left));
      && r.gameOver == game.gameOver
      && (Playfield(game.cell) ==> Revealed(r.grid) == Reveal(Board(game.grid), Revealed(game.grid), game.cell))
      && forall q | InSquare(Size, q) && At(r.grid, Size, q).isRevealed && !At(game.grid, Size, q).isRevealed ::
           !At(game.grid, Size, q).isBomb && Playfield(q)
  {
  }

  // ---------------------------------------------------------------------------
  // update

  /** The index update gives a revealed cell: the bomb sprite once the game
      is over, else its count sprite, else the pressed sprite. */
  function RevealedIndex(c: Cell, gameOver: bool): int {
    if c.isBomb && gameOver then Bomb
    else if c.closeBombs != 0 then c.closeBombs + CountBase
    else Opened
  }

  /** The loop body over the playfield: revealed cells get RevealedIndex. */
  function SetIndices(g: Grid, gameOver: bool): (r: Grid)
    requires Shaped(g)
    ensures Shaped(r) && Revealed(r) == Revealed(g)
    ensures forall q | InSquare(Size, q) ::
      At(r, Size, q) == if Playfield(q) && At(g, Size, q).isRevealed
                        then At(g, Size, q).(index := RevealedIndex(At(g, Size, q), gameOver))
                        else At(g, Size, q)
  {
    seq(Size, y requires 0 <= y < Size => seq(Size, x requires 0 <= x < Size =>
      if y >= Top && g[y][x].isRevealed then g[y][x].(index := RevealedIndex(g[y][x], gameOver)) else g[y][x]))
  }

  /** The game-over reveal as written: the test and the write both use the
      globals gridY/gridX rather than the loop's y/x, so only the cell of the
      last click is revealed (its index is checked before the loop touches
      it, and a cell left hidden keeps its index). */
  function GameOverRevealAsWritten(game: Game): (g: Grid)
    requires Shaped(game.grid) && (game.gameOver ==> InSquare(Size, game.cell))
    ensures Shaped(g)
  {
    var p := game.cell;
    if game.gameOver && At(game.grid, Size, p).index != RedBomb then
      Put(game.grid, Size, p, At(game.grid, Size, p).(isRevealed := true))
    else game.grid
  }

  /** Once the game is over, the written reveal leaves every cell but the
      clicked one as it was, so the bombs elsewhere stay hidden. */
  lemma GameOverRevealsOneCell(game: Game)
    requires Shaped(game.grid) && game.gameOver && InSquare(Size, game.cell)
    ensures forall q | InSquare(Size, q) && q != game.cell ::
      At(GameOverRevealAsWritten(game), Size, q) == At(game.grid, Size, q)
  {
  }

  /** The game-over reveal as meant: every playfield cell except the red bomb
      is revealed. */
  function GameOverReveal(game: Game): (g: Grid)
    requires Shaped(game.grid)
    ensures Shaped(g)
    ensures forall q | InSquare(Size, q) ::
      At(g, Size, q) == if game.gameOver && Playfield(q) && At(game.grid, Size, q).index != RedBomb
                        then At(game.grid, Size, q).(isRevealed := true)
                        else At(game.grid, Size, q)
  {
    seq(Size, y requires 0 <= y < Size => seq(Size, x requires 0 <= x < Size =>
      if game.gameOver && y >= Top && game.grid[y][x].index != RedBomb then game.grid[y][x].(isRevealed := true)
      else game.grid[y][x]))
  }

  /** UpdateCorrected's grid: once the game is over (and
      the red bomb, as always, is revealed), every playfield cell is revealed
      and every bomb shows the bomb sprite. */
  lemma GameOverShowsAll(game: Game)
    requires Shaped(game.grid) && game.gameOver
    requires forall q | Playfield(q) :: At(game.grid, Size, q).index == RedBomb ==> At(game.grid, Size, q).isRevealed
    ensures var g := SetIndices(GameOverReveal(game), true);
      forall q | Playfield(q) ::
        && At(g, Size, q).isRevealed
        && (At(g, Size, q).isBomb ==> At(g, Size, q).index == Bomb)
  {
  }

  /** The per-frame tally shared by both forms of update: given the grid
      after the game-over reveal, set the indices, count the revealed
      playfield cells and put on the sunglasses when the count is
      totalCells - totalBombs. */
  method Tally(game: Game, g: Grid) returns (r: Game)
    requires Shaped(g)
    ensures && r.grid == SetIndices(g, game.gameOver)
            && r.totalRevealed == |RowsSet(g, Size, Top, (c: Cell) => c.isRevealed)|
            && r.smiley == (if r.totalRevealed == game.totalCells - game.totalBombs then Sunglasses else game.smiley)
            && r == game.(grid := r.grid, totalRevealed := r.totalRevealed, smiley := r.smiley)
  {
    var revealed := CountCells(g, Size, Top, (c: Cell) => c.isRevealed);
    r := game.(grid := SetIndices(g, game.gameOver), totalRevealed := revealed);
    if revealed == game.totalCells - game.totalBombs {
      r := r.(smiley := Sunglasses);
    }
  }

  /** update as written: after game over only the cell of the last click is
      revealed; then the index of every revealed playfield cell, the count of
      revealed playfield cells, and the sunglasses when that count equals
      totalCells - totalBombs. The last click lies in the grid whenever it
      fell inside the 320x320 window. */
  method Update(game: Game) returns (r: Game)
    requires Shaped(game.grid) && (game.gameOver ==> InSquare(Size, game.cell))
    ensures var g := GameOverRevealAsWritten(game);
      && r.grid == SetIndices(g, game.gameOver)
      && r.totalRevealed == |RowsSet(g, Size, Top, (c: Cell) => c.isRevealed)|
      && r.smiley == (if r.totalRevealed == game.totalCells - game.totalBombs then Sunglasses else game.smiley)
      && r == game.(grid := r.grid, totalRevealed := r.totalRevealed, smiley := r.smiley)
  {
    r := Tally(game, GameOverRevealAsWritten(game));
  }

  /** update with the game-over reveal as meant: once the game is over every
      playfield cell but the red bomb is revealed before the tally. */
  method UpdateCorrected(game: Game) returns (r: Game)
    requires Shaped(game.grid)
    ensures var g := GameOverReveal(game);
      && r.grid == SetIndices(g, game.gameOver)
      && r.totalRevealed == |RowsSet(g, Size, Top, (c: Cell) => c.isRevealed)|
      && r.smiley == (if r.totalRevealed == game.totalCells - game.totalBombs then Sunglasses else game.smiley)
      && r == game.(grid := r.grid, totalRevealed := r.totalRevealed, smiley := r.smiley)
  {
    r := Tally(game, GameOverReveal(game));
  }

  /** The win check's meaning: while no playfield bomb is revealed and the
      totals are those initializeGrid set, the count matches exactly when every
      playfield cell that is not a bomb is revealed. */
  lemma WinCheck(g: Grid, totalCells: int, totalBombs: int)
    requires Shaped(g)
    requires totalCells == PlayfieldCells && totalBombs == |RowsSet(g, Size, Top, (c: Cell) => c.isBomb)|
    requires forall q | Playfield(q) :: !(At(g, Size, q).isRevealed && At(g, Size, q).isBomb)
    ensures |RowsSet(g, Size, Top, (c: Cell) => c.isRevealed)| == totalCells - totalBombs
        <==> forall q | Playfield(q) :: At(g, Size, q).isBomb || At(g, Size, q).isRevealed
  {
    var revealed := RowsSet(g, Size, Top, (c: Cell) => c.isRevealed);
    var bombs := RowsSet(g, Size, Top, (c: Cell) => c.isBomb);
    var all := Cells(Field(Size, Top, {}, {}));
    var safe := all - bombs;
    PlayfieldSize();
    assert bombs <= all;
    assert |safe| == totalCells - totalBombs;
    assert revealed <= safe;
    if |revealed| == |safe| {
      SubsetSameSize(revealed, safe);
      forall q | Playfield(q)
        ensures At(g, Size, q).isBomb || At(g, Size, q).isRevealed
      {
        assert q in all;
      }
    } else {
      assert revealed != safe;
      assert safe - revealed != {};
      var q :| q in safe - revealed;
      assert Playfield(q) && !At(g, Size, q).isBomb && !At(g, Size, q).isRevealed;
    }
  }

  lemma SubsetSameSize(a: set<Pos>, b: set<Pos>)
    requires a <= b && |a| == |b|
    ensures a == b
  {
    assert b == a + (b - a);
    assert a !! (b - a);
  }
}
