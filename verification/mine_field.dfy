/** What both Minesweeper variants share: the clipped 3x3 neighbour count
    (countNeighboringBombs) and the recursive flood fill of revealTiles, stated
    over sets of cell positions. A position is (x, y): column, then row. */
module MineField {
  import opened Machine

  type Pos = (int, int)

  /** The k-th cell revealTiles and countNeighboringBombs visit around c: the
      outer loop runs the column offset k / 3 - 1, the inner loop the row offset
      k % 3 - 1, so k == 4 is c itself. */
  function Neighbour(c: Pos, k: int): Pos
    requires 0 <= k < 9
  {
    (c.0 + k / 3 - 1, c.1 + k % 3 - 1)
  }

  /** p lies in the 3x3 block centred on c (c included). */
  predicate Near(c: Pos, p: Pos) {
    -1 <= p.0 - c.0 <= 1 && -1 <= p.1 - c.1 <= 1
  }

  /** p is one of the eight cells around c. */
  predicate Adjacent(c: Pos, p: Pos) {
    Near(c, p) && p != c
  }

  /** Where p comes in the visiting order around c. */
  function NeighbourIndex(c: Pos, p: Pos): (k: int)
    requires Near(c, p)
    ensures 0 <= k < 9 && Neighbour(c, k) == p
    ensures k == 4 <==> p == c
  {
    var k := (p.0 - c.0 + 1) * 3 + (p.1 - c.1 + 1);
    assert k / 3 == p.0 - c.0 + 1 && k % 3 == p.1 - c.1 + 1;
    k
  }

  lemma NeighbourNear(c: Pos, k: int)
    requires 0 <= k < 9
    ensures Near(c, Neighbour(c, k)) && NeighbourIndex(c, Neighbour(c, k)) == k
    ensures k != 4 <==> Adjacent(c, Neighbour(c, k))
  {
  }

  /** The cells of a size x size grid. */
  predicate InSquare(size: int, p: Pos) {
    0 <= p.0 < size && 0 <= p.1 < size
  }

  // ---------------------------------------------------------------------------
  // Grids of cells, indexed grid[y][x] as both programs do

  predicate WellFormed<T>(g: seq<seq<T>>, size: nat) {
    |g| == size && forall y | 0 <= y < size :: |g[y]| == size
  }

  function At<T>(g: seq<seq<T>>, size: nat, p: Pos): T
    requires WellFormed(g, size) && InSquare(size, p)
  {
    g[p.1][p.0]
  }

  /** The grid with the cell at p replaced. */
  function Put<T>(g: seq<seq<T>>, size: nat, p: Pos, c: T): (r: seq<seq<T>>)
    requires WellFormed(g, size) && InSquare(size, p)
    ensures WellFormed(r, size) && At(r, size, p) == c
    ensures forall q | InSquare(size, q) && q != p :: At(r, size, q) == At(g, size, q)
  {
    g[p.1 := g[p.1][p.0 := c]]
  }

  /** The positions of the cells that satisfy P. */
  function CellSet<T>(g: seq<seq<T>>, size: nat, P: T -> bool): (s: set<Pos>)
    requires WellFormed(g, size)
    ensures forall p :: p in s <==> InSquare(size, p) && P(At(g, size, p))
  {
    set x, y | 0 <= x < size && 0 <= y < size && P(g[y][x]) :: (x, y)
  }

  /** Replacing one cell changes the set only at that cell. */
  lemma CellSetPut<T>(g: seq<seq<T>>, size: nat, P: T -> bool, p: Pos, c: T)
    requires WellFormed(g, size) && InSquare(size, p)
    ensures CellSet(Put(g, size, p, c), size, P)
         == (CellSet(g, size, P) - {p}) + (if P(c) then {p} else {})
  {
  }

  /** The positions in rows top..size-1 of the cells that satisfy P. */
  function RowsSet<T>(g: seq<seq<T>>, size: nat, top: nat, P: T -> bool): (s: set<Pos>)
    requires WellFormed(g, size)
    ensures forall p :: p in s <==> InSquare(size, p) && top <= p.1 && P(At(g, size, p))
  {
    set x, y | 0 <= x < size && top <= y < size && P(g[y][x]) :: (x, y)
  }

  /** Those of them that come before position i in row-major order. */
  function CellsBefore<T>(g: seq<seq<T>>, size: nat, top: nat, P: T -> bool, i: int): set<Pos>
    requires WellFormed(g, size)
  {
    set x, y | 0 <= x < size && top <= y < size && y * size + x < i && P(g[y][x]) :: (x, y)
  }

  lemma CellsBeforeStep<T>(g: seq<seq<T>>, size: nat, top: nat, P: T -> bool, x: int, y: int)
    requires WellFormed(g, size) && 0 <= x < size && top <= y < size
    ensures CellsBefore(g, size, top, P, y * size + x + 1)
         == CellsBefore(g, size, top, P, y * size + x) + (if P(g[y][x]) then {(x, y)} else {})
  {
    var i := y * size + x;
    forall p | p in CellsBefore(g, size, top, P, i + 1) && p !in CellsBefore(g, size, top, P, i)
      ensures p == (x, y)
    {
      GridIndex(p.0, p.1, size, size);
      GridIndex(x, y, size, size);
    }
  }

  lemma CellsBeforeEnds<T>(g: seq<seq<T>>, size: nat, top: nat, P: T -> bool, y: int)
    requires WellFormed(g, size) && top <= y < size
    ensures top == y ==> CellsBefore(g, size, top, P, y * size) == {}
    ensures CellsBefore(g, size, top, P, y * size + size) == CellsBefore(g, size, top, P, (y + 1) * size)
    ensures y + 1 == size ==> CellsBefore(g, size, top, P, (y + 1) * size) == RowsSet(g, size, top, P)
  {
    if top == y {
      forall p | p in CellsBefore(g, size, top, P, y * size)
        ensures false
      {
        MulMonotone(y, p.1, size);
      }
    }
    if y + 1 == size {
      forall p | p in RowsSet(g, size, top, P)
        ensures p in CellsBefore(g, size, top, P, (y + 1) * size)
      {
        GridIndex(p.0, p.1, size, size);
      }
    }
  }

  /** The counting double loop both programs use (num_bombs, totalBombs,
      totalRevealed): rows top.. outside, columns inside, one increment per
      cell that satisfies P. */
  method CountCells<T>(g: seq<seq<T>>, size: nat, top: nat, P: T -> bool) returns (n: int)
    requires WellFormed(g, size)
    ensures n == |RowsSet(g, size, top, P)|
  {
    n := 0;
    if top >= size {
      assert RowsSet(g, size, top, P) == {};
      return;
    }
    var y := top;
    CellsBeforeEnds(g, size, top, P, y);
    while y < size
      invariant top <= y <= size
      invariant n == |CellsBefore(g, size, top, P, y * size)|
      invariant y == size ==> CellsBefore(g, size, top, P, y * size) == RowsSet(g, size, top, P)
    {
      var x := 0;
      while x < size
        invariant 0 <= x <= size
        invariant n == |CellsBefore(g, size, top, P, y * size + x)|
      {
        CellsBeforeStep(g, size, top, P, x, y);
        if P(g[y][x]) {
          n := n + 1;
        }
        x := x + 1;
      }
      CellsBeforeEnds(g, size, top, P, y);
      y := y + 1;
    }
  }

  // ---------------------------------------------------------------------------
  // countNeighboringBombs

  /** The bombs of the grid that lie in the 3x3 block around c. */
  function NearBombs(bombs: set<Pos>, size: int, c: Pos): set<Pos> {
    set p | p in bombs && InSquare(size, p) && Near(c, p)
  }

  /** The visits k.. of the double loop. */
  function CountFrom(bombs: set<Pos>, size: int, c: Pos, k: nat): (n: nat)
    requires k <= 9
    ensures n <= 9 - k
    decreases 9 - k
  {
    if k == 9 then 0
    else
      var p := Neighbour(c, k);
      (if InSquare(size, p) && p in bombs then 1 else 0) + CountFrom(bombs, size, c, k + 1)
  }

  /** countNeighboringBombs: the number of bombs in the block around c, c
      included, clipped to the grid. */
  function CountNeighbouringBombs(bombs: set<Pos>, size: int, c: Pos): (n: nat)
    ensures n <= 9
  {
    CountFrom(bombs, size, c, 0)
  }

  /** The bombs the visits k.. can see. */
  function SeenFrom(bombs: set<Pos>, size: int, c: Pos, k: int): set<Pos> {
    set p | p in bombs && InSquare(size, p) && Near(c, p) && NeighbourIndex(c, p) >= k
  }

  lemma {:induction false} CountFromSeen(bombs: set<Pos>, size: int, c: Pos, k: nat)
    requires k <= 9
    ensures CountFrom(bombs, size, c, k) == |SeenFrom(bombs, size, c, k)|
    decreases 9 - k
  {
    if k == 9 {
      assert SeenFrom(bombs, size, c, k) == {};
    } else {
      CountFromSeen(bombs, size, c, k + 1);
      var p := Neighbour(c, k);
      NeighbourNear(c, k);
      var rest := SeenFrom(bombs, size, c, k + 1);
      var seen := SeenFrom(bombs, size, c, k);
      var here: set<Pos> := if InSquare(size, p) && p in bombs then {p} else {};
      forall q
        ensures q in seen <==> q in rest + here
      {
        if q in bombs && InSquare(size, q) && Near(c, q) && NeighbourIndex(c, q) == k {
          assert q == p;
        }
      }
      assert seen == rest + here;
      assert p !in rest;
    }
  }

  /** The count is the number of bombs in the clipped block, so it is zero
      exactly when no bomb touches c. */
  lemma CountIsNearBombs(bombs: set<Pos>, size: int, c: Pos)
    ensures CountNeighbouringBombs(bombs, size, c) == |NearBombs(bombs, size, c)|
    ensures CountNeighbouringBombs(bombs, size, c) == 0 <==>
      forall p | p in bombs && InSquare(size, p) :: !Near(c, p)
  {
    CountFromSeen(bombs, size, c, 0);
    SeenAll(bombs, size, c);
    EmptyNearBombs(bombs, size, c);
  }

  lemma SeenAll(bombs: set<Pos>, size: int, c: Pos)
    ensures SeenFrom(bombs, size, c, 0) == NearBombs(bombs, size, c)
  {
  }

  lemma EmptyNearBombs(bombs: set<Pos>, size: int, c: Pos)
    ensures |NearBombs(bombs, size, c)| == 0 <==> forall p | p in bombs && InSquare(size, p) :: !Near(c, p)
  {
    if |NearBombs(bombs, size, c)| != 0 {
      var p :| p in NearBombs(bombs, size, c);
    } else {
      assert NearBombs(bombs, size, c) == {};
      forall p | p in bombs && InSquare(size, p)
        ensures !Near(c, p)
      {
        assert p !in NearBombs(bombs, size, c);
      }
    }
  }

  /** Bombs outside the grid or away from c do not change the count. */
  lemma CountLocal(a: set<Pos>, b: set<Pos>, size: int, c: Pos)
    requires forall p | InSquare(size, p) && Near(c, p) :: p in a <==> p in b
    ensures CountNeighbouringBombs(a, size, c) == CountNeighbouringBombs(b, size, c)
  {
    CountIsNearBombs(a, size, c);
    CountIsNearBombs(b, size, c);
    assert NearBombs(a, size, c) == NearBombs(b, size, c);
  }

  // ---------------------------------------------------------------------------
  // revealTiles

  /** The board a flood fill runs on: the columns 0..size-1 and rows top..size-1
      it accepts, the cells it must not reveal (bombs, and flags in one variant)
      and the blank cells (closeBombs not positive) it spreads from. */
  datatype Field = Field(size: nat, top: nat, blocked: set<Pos>, blank: set<Pos>)

  predicate InGrid(f: Field, p: Pos) {
    0 <= p.0 < f.size && f.top <= p.1 < f.size
  }

  function Cells(f: Field): (s: set<Pos>)
    ensures forall p :: p in s <==> InGrid(f, p)
  {
    set x, y | 0 <= x < f.size && f.top <= y < f.size :: (x, y)
  }

  /** The first n cells of row y. */
  function RowPrefix(n: int, y: int): (s: set<Pos>)
    ensures forall p :: p in s <==> 0 <= p.0 < n && p.1 == y
  {
    set x | 0 <= x < n :: (x, y)
  }

  lemma {:induction false} RowPrefixSize(n: nat, y: int)
    ensures |RowPrefix(n, y)| == n
  {
    if n > 0 {
      RowPrefixSize(n - 1, y);
      var s, t := RowPrefix(n, y), RowPrefix(n - 1, y);
      forall p
        ensures p in s <==> p in t + {(n - 1, y)}
      {
      }
      assert s == t + {(n - 1, y)};
      assert (n - 1, y) !in t;
    } else {
      forall p
        ensures p !in RowPrefix(0, y)
      {
      }
      assert RowPrefix(n, y) == {};
    }
  }

  /** A board has (size - top) rows of size cells each. */
  lemma {:induction false} CellsSize(f: Field)
    requires f.top <= f.size
    ensures |Cells(f)| == (f.size - f.top) * f.size
    decreases f.size - f.top
  {
    if f.top == f.size {
      assert Cells(f) == {};
    } else {
      var g := f.(top := f.top + 1);
      CellsSize(g);
      RowPrefixSize(f.size, f.top);
      CellsSplit(f);
      MulSucc(f.size - g.top, f.size);
    }
  }

  /** A board is its first row and the board below it. */
  lemma CellsSplit(f: Field)
    requires f.top < f.size
    ensures var row := RowPrefix(f.size, f.top);
      && Cells(f) == Cells(f.(top := f.top + 1)) + row
      && Cells(f.(top := f.top + 1)) !! row
  {
  }

  lemma MulSucc(a: int, b: int)
    ensures (a + 1) * b == a * b + b
  {
  }

  /** Whether revealTiles(p) does anything: p is on the board, not yet revealed
      and not blocked. */
  predicate Opens(f: Field, rev: set<Pos>, p: Pos) {
    InGrid(f, p) && p !in rev && p !in f.blocked
  }

  /** revealTiles at p, given the set of revealed cells: a no-op unless Opens;
      otherwise p is revealed, and when it is blank the eight neighbours are
      revealed in visiting order. Only board cells that are not blocked are
      ever added. */
  function Reveal(f: Field, rev: set<Pos>, p: Pos): (r: set<Pos>)
    ensures rev <= r
    ensures forall q | q in r && q !in rev :: InGrid(f, q) && q !in f.blocked
    decreases Cells(f) - rev, 0
  {
    if !Opens(f, rev, p) then rev
    else if p !in f.blank then rev + {p}
    else RevealAround(f, rev + {p}, p, 0)
  }

  /** The recursive calls k.. of the loop around c. */
  function RevealAround(f: Field, rev: set<Pos>, c: Pos, k: nat): (r: set<Pos>)
    requires k <= 9
    ensures rev <= r
    ensures forall q | q in r && q !in rev :: InGrid(f, q) && q !in f.blocked
    decreases Cells(f) - rev, 1, 9 - k
  {
    if k == 9 then rev
    else if k == 4 then RevealAround(f, rev, c, 5)
    else RevealAround(f, Reveal(f, rev, Neighbour(c, k)), c, k + 1)
  }

  /** A chain of cells of s, each step to an adjacent cell out of a blank one:
      the route the recursion takes. */
  predicate IsPath(f: Field, s: set<Pos>, path: seq<Pos>) {
    && |path| > 0
    && (forall i | 0 <= i < |path| :: path[i] in s)
    && (forall i | 0 <= i < |path| - 1 :: path[i] in f.blank && Adjacent(path[i], path[i + 1]))
  }

  /** q is reached from p through blank cells of s. */
  ghost predicate Reaches(f: Field, s: set<Pos>, p: Pos, q: Pos) {
    exists path :: IsPath(f, s, path) && path[0] == p && path[|path| - 1] == q
  }

  /** Every blank cell revealed since rev has all its non-blocked board
      neighbours revealed. */
  ghost predicate Closed(f: Field, rev: set<Pos>, r: set<Pos>) {
    forall q, s | q in r && q !in rev && q in f.blank && InGrid(f, s) && s !in f.blocked && Adjacent(q, s) ::
      s in r
  }

  lemma ReachesWiden(f: Field, s: set<Pos>, t: set<Pos>, p: Pos, q: Pos)
    requires s <= t && Reaches(f, s, p, q)
    ensures Reaches(f, t, p, q)
  {
    var path :| IsPath(f, s, path) && path[0] == p && path[|path| - 1] == q;
    assert IsPath(f, t, path);
  }

  lemma ReachesPrepend(f: Field, s: set<Pos>, p: Pos, c: Pos, q: Pos)
    requires p in s && p in f.blank && Adjacent(p, c) && Reaches(f, s, c, q)
    ensures Reaches(f, s, p, q)
  {
    var path :| IsPath(f, s, path) && path[0] == c && path[|path| - 1] == q;
    var longer := [p] + path;
    assert longer[1..] == path;
    assert IsPath(f, s, longer);
  }

  /** What revealTiles(p) does: it reveals p exactly when Opens holds, leaves
      no revealed blank cell with an unrevealed open neighbour, and every cell
      it reveals is reached from p through blank cells it revealed; so the
      revealed cells are the blank-connected region of p and its border. */
  lemma {:induction false} RevealSpec(f: Field, rev: set<Pos>, p: Pos)
    ensures Opens(f, rev, p) ==> p in Reveal(f, rev, p)
    ensures !Opens(f, rev, p) ==> Reveal(f, rev, p) == rev
    ensures Closed(f, rev, Reveal(f, rev, p))
    ensures forall q | q in Reveal(f, rev, p) && q !in rev :: Reaches(f, Reveal(f, rev, p) - rev, p, q)
    decreases Cells(f) - rev, 0
  {
    var r := Reveal(f, rev, p);
    if !Opens(f, rev, p) {
    } else if p !in f.blank {
      assert r - rev == {p};
      assert IsPath(f, r - rev, [p]);
    } else {
      var rev1 := rev + {p};
      RevealAroundSpec(f, rev1, p, 0);
      forall q, s | q in r && q !in rev && q in f.blank && InGrid(f, s) && s !in f.blocked && Adjacent(q, s)
        ensures s in r
      {
        if q == p {
          var k := NeighbourIndex(p, s);
        }
      }
      forall q | q in r && q !in rev
        ensures Reaches(f, r - rev, p, q)
      {
        if q == p {
          assert IsPath(f, r - rev, [p]);
        } else {
          var j :| 0 <= j < 9 && j != 4 && Reaches(f, r - rev1, Neighbour(p, j), q);
          NeighbourNear(p, j);
          ReachesWiden(f, r - rev1, r - rev, Neighbour(p, j), q);
          ReachesPrepend(f, r - rev, p, Neighbour(p, j), q);
        }
      }
    }
  }

  /** What the recursive calls k.. around c promise about their result r:
      every open neighbour from k on is revealed, r is closed, and each new
      cell is reached from one of those neighbours. */
  ghost predicate AroundFacts(f: Field, rev: set<Pos>, c: Pos, k: nat, r: set<Pos>) {
    && (forall j | k <= j < 9 && j != 4 :: Opens(f, {}, Neighbour(c, j)) ==> Neighbour(c, j) in r)
    && Closed(f, rev, r)
    && (forall q | q in r && q !in rev :: exists j | k <= j < 9 && j != 4 :: Reaches(f, r - rev, Neighbour(c, j), q))
  }

  lemma {:induction false} RevealAroundSpec(f: Field, rev: set<Pos>, c: Pos, k: nat)
    requires k <= 9
    ensures AroundFacts(f, rev, c, k, RevealAround(f, rev, c, k))
    decreases Cells(f) - rev, 1, 9 - k
  {
    if k == 9 {
      assert RevealAround(f, rev, c, k) == rev;
      AroundDone(f, rev, c);
    } else if k == 4 {
      var r := RevealAround(f, rev, c, 5);
      assert RevealAround(f, rev, c, k) == r;
      RevealAroundSpec(f, rev, c, 5);
      AroundSkip(f, rev, c, r);
    } else {
      var n := Neighbour(c, k);
      var mid := Reveal(f, rev, n);
      var r := RevealAround(f, mid, c, k + 1);
      assert RevealAround(f, rev, c, k) == r;
      RevealSpec(f, rev, n);
      RevealAroundSpec(f, mid, c, k + 1);
      AroundStep(f, rev, mid, r, c, k);
    }
  }

  /** Past the last neighbour nothing is promised beyond closure of rev. */
  lemma AroundDone(f: Field, rev: set<Pos>, c: Pos)
    ensures AroundFacts(f, rev, c, 9, rev)
  {
  }

  /** Index 4 is the centre cell itself, which the calls skip. */
  lemma AroundSkip(f: Field, rev: set<Pos>, c: Pos, r: set<Pos>)
    requires AroundFacts(f, rev, c, 5, r)
    ensures AroundFacts(f, rev, c, 4, r)
  {
  }

  /** Call k followed by calls k + 1.. keeps the promises of AroundFacts. */
  lemma AroundStep(f: Field, rev: set<Pos>, mid: set<Pos>, r: set<Pos>, c: Pos, k: nat)
    requires k < 9 && k != 4 && rev <= mid <= r
    requires Opens(f, rev, Neighbour(c, k)) ==> Neighbour(c, k) in mid
    requires Closed(f, rev, mid)
    requires forall q | q in mid && q !in rev :: Reaches(f, mid - rev, Neighbour(c, k), q)
    requires AroundFacts(f, mid, c, k + 1, r)
    ensures AroundFacts(f, rev, c, k, r)
  {
    OpenNeighboursIn(f, rev, mid, r, c, k);
    ClosedCompose(f, rev, mid, r);
    ReachesCompose(f, rev, mid, r, c, k);
  }

  lemma OpenNeighboursIn(f: Field, rev: set<Pos>, mid: set<Pos>, r: set<Pos>, c: Pos, k: nat)
    requires k < 9 && k != 4 && rev <= mid <= r
    requires Opens(f, rev, Neighbour(c, k)) ==> Neighbour(c, k) in mid
    requires forall j | k + 1 <= j < 9 && j != 4 :: Opens(f, {}, Neighbour(c, j)) ==> Neighbour(c, j) in r
    ensures forall j | k <= j < 9 && j != 4 :: Opens(f, {}, Neighbour(c, j)) ==> Neighbour(c, j) in r
  {
  }

  lemma ReachesCompose(f: Field, rev: set<Pos>, mid: set<Pos>, r: set<Pos>, c: Pos, k: nat)
    requires k < 9 && k != 4 && rev <= mid <= r
    requires forall q | q in mid && q !in rev :: Reaches(f, mid - rev, Neighbour(c, k), q)
    requires forall q | q in r && q !in mid ::
      exists j | k + 1 <= j < 9 && j != 4 :: Reaches(f, r - mid, Neighbour(c, j), q)
    ensures forall q | q in r && q !in rev ::
      exists j | k <= j < 9 && j != 4 :: Reaches(f, r - rev, Neighbour(c, j), q)
  {
    forall q | q in r && q !in rev
      ensures exists j | k <= j < 9 && j != 4 :: Reaches(f, r - rev, Neighbour(c, j), q)
    {
      if q in mid {
        ReachesWiden(f, mid - rev, r - rev, Neighbour(c, k), q);
      } else {
        var j :| k + 1 <= j < 9 && j != 4 && Reaches(f, r - mid, Neighbour(c, j), q);
        ReachesWiden(f, r - mid, r - rev, Neighbour(c, j), q);
      }
    }
  }

  lemma ClosedCompose(f: Field, rev: set<Pos>, mid: set<Pos>, r: set<Pos>)
    requires rev <= mid <= r && Closed(f, rev, mid) && Closed(f, mid, r)
    ensures Closed(f, rev, r)
  {
    forall q, s | q in r && q !in rev && q in f.blank && InGrid(f, s) && s !in f.blocked && Adjacent(q, s)
      ensures s in r
    {
      if q in mid {
        assert s in mid;
      }
    }
  }
}
