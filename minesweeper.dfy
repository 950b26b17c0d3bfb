/**
 * The Minesweeper board and the knowledge-based player of
 * Minesweeper/minesweeper.py.
 *
 * The board (`Game`), a `Sentence` ("exactly `count` of `cells` are mines")
 * and the player (`MinesweeperAI`) are objects whose fields the source
 * updates in place.  The player's knowledge is a list of shared `Sentence`
 * objects: marking a cell updates every sentence in the list.
 *
 * A `Fact` is the value of a sentence.  `Holds(f, m)` says that the fact is
 * true of a placement `m` of mines; the soundness lemmas state that each
 * inference keeps every fact true and never calls a safe cell a mine.
 */
module Minesweeper {
  import opened Wrappers

  /** A board position (row, column). */
  type Cell = (int, int)

  /** The height and width of a default `Minesweeper()` board. */
  const DefaultSize: int := 8

  predicate Within(c: Cell, height: int, width: int) {
    0 <= c.0 < height && 0 <= c.1 < width
  }

  /** d is one of the eight cells around c. */
  predicate Adjacent(c: Cell, d: Cell) {
    c != d && -1 <= c.0 - d.0 <= 1 && -1 <= c.1 - d.1 <= 1
  }

  /** The cells around `cell` that lie on a height x width board. */
  function Around(cell: Cell, height: int, width: int): set<Cell> {
    set i, j | cell.0 - 1 <= i <= cell.0 + 1 && cell.1 - 1 <= j <= cell.1 + 1 &&
               (i, j) != cell && 0 <= i < height && 0 <= j < width :: (i, j)
  }

  lemma AroundMember(cell: Cell, height: int, width: int, c: Cell)
    ensures c in Around(cell, height, width) <==> Adjacent(c, cell) && Within(c, height, width)
  {
    if Adjacent(c, cell) && Within(c, height, width) {
      var (i, j) := c;
      assert (i, j) in Around(cell, height, width);
    }
  }

  lemma {:induction false} SubsetSize<T>(a: set<T>, b: set<T>)
    requires a <= b
    ensures |a| <= |b|
  {
    if a != {} {
      var x :| x in a;
      SubsetSize(a - {x}, b - {x});
    }
  }

  /** A cell has at most eight neighbours. */
  lemma AroundSize(cell: Cell, height: int, width: int)
    ensures |Around(cell, height, width)| <= 8
  {
    var (i, j) := cell;
    var all := {(i - 1, j - 1), (i - 1, j), (i - 1, j + 1), (i, j - 1), (i, j + 1),
                (i + 1, j - 1), (i + 1, j), (i + 1, j + 1)};
    forall c | c in Around(cell, height, width) ensures c in all {
      AroundMember(cell, height, width, c);
    }
    SubsetSize(Around(cell, height, width), all);
  }

  /** The mines among the cells around `cell`. */
  ghost function MinesAround(mines: set<Cell>, cell: Cell): set<Cell> {
    set c | c in mines && Adjacent(c, cell)
  }

  /** The mines around `cell` in the rows before i, or in row i before column j. */
  ghost function MinesBefore(mines: set<Cell>, cell: Cell, i: int, j: int): set<Cell> {
    set c | c in mines && Adjacent(c, cell) && (c.0 < i || (c.0 == i && c.1 < j))
  }

  lemma MinesBeforeStart(mines: set<Cell>, cell: Cell)
    ensures MinesBefore(mines, cell, cell.0 - 1, cell.1 - 1) == {}
  {
  }

  /** Moving one column on adds (i, j) to the count exactly when it is an adjacent mine. */
  lemma MinesBeforeStep(mines: set<Cell>, cell: Cell, i: int, j: int)
    ensures |MinesBefore(mines, cell, i, j + 1)| ==
            |MinesBefore(mines, cell, i, j)| + if (i, j) in mines && Adjacent((i, j), cell) then 1 else 0
  {
    if (i, j) in mines && Adjacent((i, j), cell) {
      assert MinesBefore(mines, cell, i, j + 1) == MinesBefore(mines, cell, i, j) + {(i, j)};
    } else {
      assert MinesBefore(mines, cell, i, j + 1) == MinesBefore(mines, cell, i, j);
    }
  }

  lemma MinesBeforeRow(mines: set<Cell>, cell: Cell, i: int)
    ensures MinesBefore(mines, cell, i, cell.1 + 2) == MinesBefore(mines, cell, i + 1, cell.1 - 1)
    ensures MinesBefore(mines, cell, cell.0 + 2, cell.1 - 1) == MinesAround(mines, cell)
  {
  }

  lemma MinesAroundSize(mines: set<Cell>, cell: Cell, height: int, width: int)
    requires forall c | c in mines :: Within(c, height, width)
    ensures |MinesAround(mines, cell)| <= 8
  {
    forall c | c in MinesAround(mines, cell) ensures c in Around(cell, height, width) {
      AroundMember(cell, height, width, c);
    }
    SubsetSize(MinesAround(mines, cell), Around(cell, height, width));
    AroundSize(cell, height, width);
  }

  // ---------------------------------------------------------------------
  // The board
  // ---------------------------------------------------------------------

  class Game {
    const height: int
    const width: int
    const board: array2<bool>
    var mines: set<Cell>
    var minesFound: set<Cell>

    ghost predicate Valid()
      reads this, board
    {
      && board.Length0 == height && board.Length1 == width
      && (forall c | c in mines :: Within(c, height, width))
      && forall i, j | 0 <= i < height && 0 <= j < width :: board[i, j] <==> (i, j) in mines
    }

    /**
     * A board whose mines sit on the cells of `placed`; the source draws
     * these cells at random until it has the requested number of them.
     */
    constructor (height: nat, width: nat, placed: set<Cell>)
      requires forall c | c in placed :: Within(c, height, width)
      ensures Valid() && fresh(board)
      ensures this.height == height && this.width == width
      ensures mines == placed && minesFound == {}
    {
      var b := new bool[height, width]((i, j) => false);
      var chosen: set<Cell> := {};
      var rest := placed;
      while rest != {}
        invariant rest + chosen == placed && rest !! chosen
        invariant forall i, j | 0 <= i < height && 0 <= j < width :: b[i, j] <==> (i, j) in chosen
        decreases rest
      {
        var c :| c in rest;
        b[c.0, c.1] := true;
        chosen := chosen + {c};
        rest := rest - {c};
      }
      this.height := height;
      this.width := width;
      board := b;
      mines := chosen;
      minesFound := {};
    }

    function IsMine(cell: Cell): (r: bool)
      requires Valid() && Within(cell, height, width)
      reads this, board
      ensures r <==> cell in mines
    {
      board[cell.0, cell.1]
    }

    /** The number of mines in the 3x3 block around `cell`, not counting `cell`. */
    method NearbyMines(cell: Cell) returns (count: nat)
      requires Valid()
      ensures count == |MinesAround(mines, cell)|
      ensures count <= 8
    {
      count := 0;
      MinesBeforeStart(mines, cell);
      for i := cell.0 - 1 to cell.0 + 2
        invariant count == |MinesBefore(mines, cell, i, cell.1 - 1)|
      {
        for j := cell.1 - 1 to cell.1 + 2
          invariant count == |MinesBefore(mines, cell, i, j)|
        {
          MinesBeforeStep(mines, cell, i, j);
          if (i, j) == cell {
            continue;
          }
          assert Adjacent((i, j), cell);
          if 0 <= i < height && 0 <= j < width && board[i, j] {
            count := count + 1;
          } else {
            assert (i, j) !in mines;
          }
        }
        MinesBeforeRow(mines, cell, i);
      }
      MinesBeforeRow(mines, cell, cell.0 + 1);
      MinesAroundSize(mines, cell, height, width);
    }

    /** The game is won when the flagged cells are exactly the mines. */
    function Won(): (r: bool)
      reads this
      ensures r <==> mines <= minesFound && minesFound <= mines
    {
      minesFound == mines
    }
  }

  // ---------------------------------------------------------------------
  // Sentences
  // ---------------------------------------------------------------------

  /** The value of a sentence: exactly `count` of `cells` are mines. */
  datatype Fact = Fact(cells: set<Cell>, count: int)

  /** The fact is true of the placement of mines `m`. */
  ghost predicate Holds(f: Fact, m: set<Cell>) {
    |f.cells * m| == f.count
  }

  /** The fact after learning that c is a mine. */
  function MineMarked(f: Fact, c: Cell): Fact {
    if c in f.cells then Fact(f.cells - {c}, f.count - 1) else f
  }

  /** The fact after learning that c is safe. */
  function SafeMarked(f: Fact, c: Cell): Fact {
    if c in f.cells then Fact(f.cells - {c}, f.count) else f
  }

  lemma MineMarkedHolds(f: Fact, c: Cell, m: set<Cell>)
    requires Holds(f, m) && c in m
    ensures Holds(MineMarked(f, c), m)
  {
    if c in f.cells {
      assert (f.cells - {c}) * m == f.cells * m - {c};
    }
  }

  lemma SafeMarkedHolds(f: Fact, c: Cell, m: set<Cell>)
    requires Holds(f, m) && c !in m
    ensures Holds(SafeMarked(f, c), m)
  {
    assert (f.cells - {c}) * m == f.cells * m;
  }

  /** When a fact names at least as many mines as cells, all its cells are mines. */
  lemma AllMines(f: Fact, m: set<Cell>)
    requires Holds(f, m) && |f.cells| <= f.count
    ensures f.cells <= m
  {
    if x :| x in f.cells && x !in m {
      SubsetSize(f.cells * m, f.cells - {x});
    }
  }

  /** Subtracting a sub-fact from a fact gives a fact about the remaining cells. */
  lemma SubsetDifferenceHolds(small: Fact, large: Fact, m: set<Cell>)
    requires Holds(small, m) && Holds(large, m) && small.cells <= large.cells
    ensures Holds(Fact(large.cells - small.cells, large.count - small.count), m)
  {
    var inSmall, inLarge := small.cells * m, large.cells * m;
    assert (large.cells - small.cells) * m == inLarge - inSmall;
    assert inSmall <= inLarge;
    assert |inLarge - inSmall| == |inLarge| - |inSmall| by {
      assert inLarge == (inLarge - inSmall) + inSmall;
    }
  }

  class Sentence {
    var cells: set<Cell>
    var count: int

    constructor (cells: set<Cell>, count: int)
      ensures this.cells == cells && this.count == count
    {
      this.cells := cells;
      this.count := count;
    }

    /** The sentence's value: its cells and its count. */
    function Value(): (r: Fact)
      reads this
      ensures r.cells == cells && r.count == count
    {
      Fact(cells, count)
    }

    /** `__eq__`: two sentences are equal when they have the same cells and count. */
    function Equals(other: Sentence): (r: bool)
      reads this, other
      ensures r <==> Value() == other.Value()
    {
      cells == other.cells && count == other.count
    }

    /** All cells are mines when there are no more cells than mines, else none is known. */
    function KnownMines(): (r: set<Cell>)
      reads this
      ensures r == {} || r == cells
      ensures r == cells <== |cells| <= count
      ensures r == {} <== |cells| > count
      ensures forall m | Holds(Value(), m) :: r <= m
    {
      if |cells| <= count then
        assert forall m | Holds(Value(), m) :: cells <= m by {
          forall m | Holds(Value(), m) ensures cells <= m {
            AllMines(Value(), m);
          }
        }
        cells
      else
        {}
    }

    /** All cells are safe when the count is zero, else none is known. */
    function KnownSafes(): (r: set<Cell>)
      reads this
      ensures r == {} || r == cells
      ensures r == cells <== count == 0
      ensures r == {} <== count != 0
      ensures forall m | Holds(Value(), m) :: r !! m
    {
      if count == 0 then
        assert forall m | Holds(Value(), m) :: cells !! m by {
          forall m | Holds(Value(), m) ensures cells !! m {
            assert cells * m == {};
            forall x | x in cells ensures x !in m {
              assert x !in cells * m;
            }
          }
        }
        cells
      else
        {}
    }

    /** A cell of the sentence that is a mine leaves it and takes one from the count. */
    method MarkMine(cell: Cell)
      modifies this
      ensures Value() == MineMarked(old(Value()), cell)
    {
      if cell in cells {
        count := count - 1;
        cells := cells - {cell};
      }
    }

    /** A cell of the sentence that is safe leaves it; the count stays. */
    method MarkSafe(cell: Cell)
      modifies this
      ensures Value() == SafeMarked(old(Value()), cell)
    {
      if cell in cells {
        cells := cells - {cell};
      }
    }
  }

  // ---------------------------------------------------------------------
  // Knowledge bases as values
  // ---------------------------------------------------------------------

  ghost predicate AllHold(fs: seq<Fact>, m: set<Cell>) {
    forall k | 0 <= k < |fs| :: Holds(fs[k], m)
  }

  function MineMarkedAll(fs: seq<Fact>, c: Cell): (r: seq<Fact>)
    ensures |r| == |fs| && forall k | 0 <= k < |r| :: c !in r[k].cells
  {
    seq(|fs|, k requires 0 <= k < |fs| => MineMarked(fs[k], c))
  }

  function SafeMarkedAll(fs: seq<Fact>, c: Cell): (r: seq<Fact>)
    ensures |r| == |fs| && forall k | 0 <= k < |r| :: c !in r[k].cells
  {
    seq(|fs|, k requires 0 <= k < |fs| => SafeMarked(fs[k], c))
  }

  /** The fact after learning that every cell of `cells` is a mine. */
  function MinesMarked(f: Fact, cells: set<Cell>): Fact {
    Fact(f.cells - cells, f.count - |f.cells * cells|)
  }

  /** The fact after learning that every cell of `cells` is safe. */
  function SafesMarked(f: Fact, cells: set<Cell>): Fact {
    Fact(f.cells - cells, f.count)
  }

  /** Every fact after learning that the cells are mines: none of them is left in any fact. */
  function MinesMarkedAll(fs: seq<Fact>, cells: set<Cell>): (r: seq<Fact>)
    ensures |r| == |fs| && forall k | 0 <= k < |r| :: r[k].cells !! cells
  {
    seq(|fs|, k requires 0 <= k < |fs| => MinesMarked(fs[k], cells))
  }

  /** Every fact after learning that the cells are safe: none of them is left in any fact. */
  function SafesMarkedAll(fs: seq<Fact>, cells: set<Cell>): (r: seq<Fact>)
    ensures |r| == |fs| && forall k | 0 <= k < |r| :: r[k].cells !! cells && r[k].count == fs[k].count
  {
    seq(|fs|, k requires 0 <= k < |fs| => SafesMarked(fs[k], cells))
  }

  /** Marking no cell changes no fact. */
  lemma MarkedNone(fs: seq<Fact>)
    ensures MinesMarkedAll(fs, {}) == fs && SafesMarkedAll(fs, {}) == fs
  {
    assert forall k | 0 <= k < |fs| :: fs[k].cells * {} == {};
  }

  /** Marking the mines one by one, in any order, is marking them all at once. */
  lemma MinesMarkedStep(fs: seq<Fact>, done: set<Cell>, c: Cell)
    requires c !in done
    ensures MineMarkedAll(MinesMarkedAll(fs, done), c) == MinesMarkedAll(fs, done + {c})
  {
    forall k | 0 <= k < |fs|
      ensures MineMarked(MinesMarked(fs[k], done), c) == MinesMarked(fs[k], done + {c})
    {
      var f := fs[k];
      if c in f.cells {
        assert f.cells * (done + {c}) == f.cells * done + {c};
      } else {
        assert f.cells * (done + {c}) == f.cells * done;
      }
    }
  }

  /** Marking the safe cells one by one, in any order, is marking them all at once. */
  lemma SafesMarkedStep(fs: seq<Fact>, done: set<Cell>, c: Cell)
    ensures SafeMarkedAll(SafesMarkedAll(fs, done), c) == SafesMarkedAll(fs, done + {c})
  {
    forall k | 0 <= k < |fs|
      ensures SafeMarked(SafesMarked(fs[k], done), c) == SafesMarked(fs[k], done + {c})
    {
    }
  }

  /** Marking cells that are all true mines keeps every fact true. */
  lemma MinesMarkedAllHolds(fs: seq<Fact>, cells: set<Cell>, m: set<Cell>)
    requires AllHold(fs, m) && cells <= m
    ensures AllHold(MinesMarkedAll(fs, cells), m)
  {
    forall k | 0 <= k < |fs| ensures Holds(MinesMarked(fs[k], cells), m) {
      var f := fs[k];
      assert f.cells * m == (f.cells - cells) * m + f.cells * cells;
      assert (f.cells - cells) * m !! f.cells * cells;
    }
  }

  /** Marking cells that are all truly safe keeps every fact true. */
  lemma SafesMarkedAllHolds(fs: seq<Fact>, cells: set<Cell>, m: set<Cell>)
    requires AllHold(fs, m) && cells !! m
    ensures AllHold(SafesMarkedAll(fs, cells), m)
  {
    forall k | 0 <= k < |fs| ensures Holds(SafesMarked(fs[k], cells), m) {
      assert (fs[k].cells - cells) * m == fs[k].cells * m;
    }
  }

  /** Marking a true mine keeps every fact true. */
  lemma MineMarkedAllHolds(fs: seq<Fact>, c: Cell, m: set<Cell>)
    requires AllHold(fs, m) && c in m
    ensures AllHold(MineMarkedAll(fs, c), m)
  {
    forall k | 0 <= k < |fs| ensures Holds(MineMarkedAll(fs, c)[k], m) {
      MineMarkedHolds(fs[k], c, m);
    }
  }

  /** Marking a truly safe cell keeps every fact true. */
  lemma SafeMarkedAllHolds(fs: seq<Fact>, c: Cell, m: set<Cell>)
    requires AllHold(fs, m) && c !in m
    ensures AllHold(SafeMarkedAll(fs, c), m)
  {
    forall k | 0 <= k < |fs| ensures Holds(SafeMarkedAll(fs, c)[k], m) {
      SafeMarkedHolds(fs[k], c, m);
    }
  }

  // ---------------------------------------------------------------------
  // The player
  // ---------------------------------------------------------------------

  /** The values of a list of sentences, in list order. */
  function ValuesOf(ks: seq<Sentence>): (r: seq<Fact>)
    reads ks
    ensures |r| == |ks| && forall k | 0 <= k < |r| :: r[k] == ks[k].Value()
  {
    seq(|ks|, k reads ks requires 0 <= k < |ks| => ks[k].Value())
  }

  class MinesweeperAI {
    const height: int
    const width: int
    var movesMade: set<Cell>
    var mines: set<Cell>
    var safes: set<Cell>
    var knowledge: seq<Sentence>

    /** No sentence object appears twice in the knowledge list. */
    ghost predicate Valid()
      reads this`knowledge
    {
      forall i, j | 0 <= i < j < |knowledge| :: knowledge[i] != knowledge[j]
    }

    /** The values of the sentences, in list order. */
    function Facts(): (r: seq<Fact>)
      reads this`knowledge, knowledge
      ensures |r| == |knowledge| && forall k | 0 <= k < |r| :: r[k] == knowledge[k].Value()
    {
      ValuesOf(knowledge)
    }

    /**
     * Everything the player believes is true of the mine placement m: its
     * mines are mines, its safe cells and moves are not, its sentences hold.
     */
    ghost predicate SoundFor(m: set<Cell>)
      reads this, knowledge
    {
      mines <= m && safes !! m && movesMade !! m && AllHold(Facts(), m)
    }

    constructor (height: int, width: int)
      ensures Valid() && this.height == height && this.width == width
      ensures movesMade == {} && mines == {} && safes == {} && knowledge == []
    {
      this.height := height;
      this.width := width;
      movesMade, mines, safes := {}, {}, {};
      knowledge := [];
    }

    /** Records a mine and removes it from every sentence, taking one from each count. */
    method MarkMine(cell: Cell)
      requires Valid()
      modifies this, knowledge
      ensures Valid() && knowledge == old(knowledge)
      ensures mines == old(mines) + {cell} && safes == old(safes) && movesMade == old(movesMade)
      ensures Facts() == MineMarkedAll(old(Facts()), cell)
    {
      mines := mines + {cell};
      for k := 0 to |knowledge|
        invariant knowledge == old(knowledge) && mines == old(mines) + {cell}
        invariant safes == old(safes) && movesMade == old(movesMade)
        invariant forall i | 0 <= i < k :: knowledge[i].Value() == MineMarked(old(knowledge[i].Value()), cell)
        invariant forall i | k <= i < |knowledge| :: knowledge[i].Value() == old(knowledge[i].Value())
      {
        knowledge[k].MarkMine(cell);
      }
    }

    /** Records a safe cell and removes it from every sentence. */
    method MarkSafe(cell: Cell)
      requires Valid()
      modifies this, knowledge
      ensures Valid() && knowledge == old(knowledge)
      ensures safes == old(safes) + {cell} && mines == old(mines) && movesMade == old(movesMade)
      ensures Facts() == SafeMarkedAll(old(Facts()), cell)
    {
      safes := safes + {cell};
      for k := 0 to |knowledge|
        invariant knowledge == old(knowledge) && safes == old(safes) + {cell}
        invariant mines == old(mines) && movesMade == old(movesMade)
        invariant forall i | 0 <= i < k :: knowledge[i].Value() == SafeMarked(old(knowledge[i].Value()), cell)
        invariant forall i | k <= i < |knowledge| :: knowledge[i].Value() == old(knowledge[i].Value())
      {
        knowledge[k].MarkSafe(cell);
      }
    }

    /**
     * The neighbours of `cell` on a default 8x8 board, whatever this
     * player's own height and width are.
     */
    method GetNeighbors(cell: Cell) returns (legal: set<Cell>)
      ensures forall c :: c in legal <==> Adjacent(c, cell) && Within(c, DefaultSize, DefaultSize)
      ensures legal == Around(cell, DefaultSize, DefaultSize)
    {
      var (i, j) := cell;
      var h, w := DefaultSize, DefaultSize;
      var neighbors := [(i - 1, j - 1), (i - 1, j), (i - 1, j + 1), (i, j - 1), (i, j + 1),
                        (i + 1, j - 1), (i + 1, j), (i + 1, j + 1)];
      legal := {};
      for k := 0 to |neighbors|
        invariant forall c :: c in legal <==> c in neighbors[..k] && Within(c, h, w)
      {
        if 0 <= neighbors[k].0 < h && 0 <= neighbors[k].1 < w {
          legal := legal + {neighbors[k]};
        }
      }
      assert neighbors[..8] == neighbors;
      forall c ensures c in legal <==> c in Around(cell, h, w) {
        AroundMember(cell, h, w, c);
      }
    }

    /**
     * The first half of `add_knowledge`: the revealed cell becomes a move
     * and a safe cell, and its report becomes a sentence over the
     * neighbours not yet known, less the neighbours known to be mines.
     */
    method RecordMove(cell: Cell, count: int, ghost m: set<Cell>)
      requires Valid()
      modifies this, knowledge
      ensures Valid() && |knowledge| >= |old(knowledge)| && knowledge[..|old(knowledge)|] == old(knowledge)
      ensures forall i | 0 <= i < |knowledge| :: knowledge[i] in old(knowledge) || fresh(knowledge[i])
      ensures movesMade == old(movesMade) + {cell} && safes == old(safes) + {cell} && mines == old(mines)
      ensures Facts() == SafeMarkedAll(old(Facts()), cell) + Report(cell, count, safes, movesMade, mines)
      ensures old(SoundFor(m)) && cell !in m && count == |Around(cell, DefaultSize, DefaultSize) * m|
              ==> SoundFor(m)
    {
      ghost var sound := SoundFor(m) && cell !in m && count == |Around(cell, DefaultSize, DefaultSize) * m|;
      ghost var before := Facts();
      movesMade := movesMade + {cell};
      assert Facts() == before;
      MarkSafe(cell);
      if sound {
        SafeMarkedAllHolds(before, cell, m);
      }
      AddReport(cell, count, m);
    }

    /** Appends the sentence for the revealed cell's report, when it has any cells. */
    method AddReport(cell: Cell, count: int, ghost m: set<Cell>)
      requires Valid()
      modifies this`knowledge
      ensures Valid() && |knowledge| >= |old(knowledge)| && knowledge[..|old(knowledge)|] == old(knowledge)
      ensures forall i | 0 <= i < |knowledge| :: knowledge[i] in old(knowledge) || fresh(knowledge[i])
      ensures Facts() == old(Facts()) + Report(cell, count, safes, movesMade, mines)
      ensures old(AllHold(Facts(), m)) && count == |Around(cell, DefaultSize, DefaultSize) * m| &&
              mines <= m && safes !! m && movesMade !! m
              ==> AllHold(Facts(), m)
    {
      var neighbors, c := Unknowns(cell, count);
      if |neighbors| > 0 {
        Append(Fact(neighbors, c));
      }
      if old(AllHold(Facts(), m)) && count == |Around(cell, DefaultSize, DefaultSize) * m| &&
         mines <= m && safes !! m && movesMade !! m {
        ReportHolds(cell, count, safes, movesMade, mines, m);
        AllHoldAppend(old(Facts()), Report(cell, count, safes, movesMade, mines), m);
      }
    }

    /**
     * The neighbours of `cell` not yet known to be safe or played, less the
     * known mines, and the reported count less the mines taken away.
     */
    method Unknowns(cell: Cell, count: int) returns (neighbors: set<Cell>, c: int)
      ensures Report(cell, count, safes, movesMade, mines) == if |neighbors| > 0 then [Fact(neighbors, c)] else []
    {
      neighbors := GetNeighbors(cell);
      neighbors := neighbors - safes - movesMade;
      ghost var unknown := neighbors;
      c := count;
      if |neighbors * mines| > 0 {
        c := c - |neighbors * mines|;
        neighbors := neighbors - mines;
      }
      assert neighbors == unknown - mines && c == count - |unknown * mines|;
    }

    /**
     * The second half of `add_knowledge`: every sentence, including those
     * appended during the sweep, marks its known mines (or else its known
     * safe cells) and is then compared with every sentence for a subset.
     * At most `fuel` comparisons are made.
     */
    method Infer(fuel: nat, ghost m: set<Cell>)
      requires Valid()
      modifies this, knowledge
      ensures Valid() && |knowledge| >= |old(knowledge)| && knowledge[..|old(knowledge)|] == old(knowledge)
      ensures movesMade == old(movesMade) && old(mines) <= mines && old(safes) <= safes
      ensures old(SoundFor(m)) ==> SoundFor(m)
    {
      ghost var sound := SoundFor(m);
      var budget := fuel;
      var k := 0;
      while k < |knowledge| && budget > 0
        invariant Valid() && |knowledge| >= |old(knowledge)| && knowledge[..|old(knowledge)|] == old(knowledge)
        invariant movesMade == old(movesMade) && old(mines) <= mines && old(safes) <= safes
        invariant sound ==> SoundFor(m)
        invariant forall i | 0 <= i < |knowledge| :: knowledge[i] in old(knowledge) || fresh(knowledge[i])
        decreases budget
      {
        budget := InferStep(k, budget, m, sound);
        k := k + 1;
      }
    }

    /** One pass of the outer loop of `add_knowledge` for sentence k. */
    method InferStep(k: nat, budget: nat, ghost m: set<Cell>, ghost sound: bool) returns (left: nat)
      requires Valid() && k < |knowledge| && budget > 0 && (sound ==> SoundFor(m))
      modifies this, knowledge
      ensures Valid() && |knowledge| >= |old(knowledge)| && knowledge[..|old(knowledge)|] == old(knowledge)
      ensures movesMade == old(movesMade) && old(mines) <= mines && old(safes) <= safes
      ensures sound ==> SoundFor(m)
      ensures forall i | 0 <= i < |knowledge| :: knowledge[i] in old(knowledge) || fresh(knowledge[i])
      ensures var marked := KnownMarked(old(Facts()), old(Facts())[k]);
              Swept(Facts(), marked, marked[k], budget - left)
      ensures left < budget && left == if budget <= |knowledge| then 0 else budget - |knowledge|
    {
      MarkKnown(knowledge[k], m, sound);
      assert Facts() == KnownMarked(old(Facts()), old(Facts())[k]);
      left := CompareWithAll(k, budget, m, sound);
    }

    /**
     * Marks the sentence's known mines if it has any, else its known safe
     * cells; the values of all sentences change accordingly.
     */
    method MarkKnown(sentence: Sentence, ghost m: set<Cell>, ghost sound: bool)
      requires Valid() && sentence in knowledge && (sound ==> SoundFor(m))
      modifies this, knowledge
      ensures Valid() && knowledge == old(knowledge) && movesMade == old(movesMade)
      ensures old(sentence.KnownMines()) != {} ==>
                mines == old(mines) + old(sentence.cells) && safes == old(safes) &&
                Facts() == MinesMarkedAll(old(Facts()), old(sentence.cells))
      ensures old(sentence.KnownMines()) == {} && old(sentence.KnownSafes()) != {} ==>
                safes == old(safes) + old(sentence.cells) && mines == old(mines) &&
                Facts() == SafesMarkedAll(old(Facts()), old(sentence.cells))
      ensures old(sentence.KnownMines()) == {} && old(sentence.KnownSafes()) == {} ==>
                mines == old(mines) && safes == old(safes) && Facts() == old(Facts())
      ensures sound ==> SoundFor(m)
    {
      var known := sentence.KnownMines();
      if |known| != 0 {
        MarkAllMines(known, m, sound);
      } else {
        known := sentence.KnownSafes();
        if |known| != 0 {
          MarkAllSafes(known, m, sound);
        }
      }
    }

    /**
     * Compares sentence k with every sentence of the list, those it appends
     * included, while the budget of comparisons lasts; returns what is left
     * of the budget.
     */
    method CompareWithAll(k: nat, budget: nat, ghost m: set<Cell>, ghost sound: bool) returns (left: nat)
      requires Valid() && k < |knowledge| && budget > 0 && (sound ==> SoundFor(m))
      modifies this`knowledge
      ensures Valid() && |knowledge| >= |old(knowledge)| && left < budget
      ensures knowledge[..|old(knowledge)|] == old(knowledge)
      ensures Swept(Facts(), old(Facts()), old(Facts())[k], budget - left)
      ensures left == if budget <= |knowledge| then 0 else budget - |knowledge|
      ensures forall i | 0 <= i < |knowledge| :: knowledge[i] in old(knowledge) || fresh(knowledge[i])
      ensures sound ==> SoundFor(m)
    {
      var sentence := knowledge[k];
      ghost var s := sentence.Value();
      ghost var facts := Facts();
      left := budget;
      var j := 0;
      while j < |knowledge| && left > 0
        invariant Valid() && old(knowledge) <= knowledge
        invariant sound ==> SoundFor(m)
        invariant forall i | 0 <= i < |knowledge| :: knowledge[i] in old(knowledge) || fresh(knowledge[i])
        invariant j <= |knowledge| && j + left == budget
        invariant sentence.Value() == s && facts == Facts()
        invariant Swept(facts, old(Facts()), s, j)
        decreases left
      {
        facts := CompareStep(sentence, j, s, facts, old(Facts()), m, sound);
        j := j + 1;
        left := left - 1;
      }
    }

    /**
     * One comparison of the sweep: the sentence with value s against
     * sentence j; returns the new facts.
     */
    method CompareStep(sentence: Sentence, j: nat, ghost s: Fact, ghost facts: seq<Fact>, ghost fs0: seq<Fact>,
                       ghost m: set<Cell>, ghost sound: bool) returns (ghost next: seq<Fact>)
      requires Valid() && sentence in knowledge && j < |knowledge| && sentence.Value() == s
      requires facts == Facts() && Swept(facts, fs0, s, j) && (sound ==> SoundFor(m))
      modifies this`knowledge
      ensures Valid() && old(knowledge) <= knowledge && sentence.Value() == s
      ensures next == Facts() && Swept(next, fs0, s, j + 1) && (sound ==> SoundFor(m))
      ensures forall i | |old(knowledge)| <= i < |knowledge| :: fresh(knowledge[i])
    {
      DerivedStep(facts, fs0, s, j);
      AddDerived(sentence, knowledge[j], m);
      next := Facts();
    }

    /** Marks each of the given cells as a mine (the order does not matter). */
    method MarkAllMines(cells: set<Cell>, ghost m: set<Cell>, ghost sound: bool)
      requires Valid() && (sound ==> SoundFor(m) && cells <= m)
      modifies this, knowledge
      ensures Valid() && knowledge == old(knowledge)
      ensures movesMade == old(movesMade) && mines == old(mines) + cells && safes == old(safes)
      ensures Facts() == MinesMarkedAll(old(Facts()), cells)
      ensures sound ==> SoundFor(m)
    {
      var rest := cells;
      ghost var done: set<Cell> := {};
      MarkedNone(Facts());
      while rest != {}
        invariant Valid() && knowledge == old(knowledge)
        invariant done !! rest && done + rest == cells
        invariant movesMade == old(movesMade) && safes == old(safes) && mines == old(mines) + done
        invariant Facts() == MinesMarkedAll(old(Facts()), done)
        decreases rest
      {
        var c :| c in rest;
        MarkMine(c);
        MinesMarkedStep(old(Facts()), done, c);
        done := done + {c};
        rest := rest - {c};
      }
      if sound {
        MinesMarkedAllHolds(old(Facts()), cells, m);
      }
    }

    /** Marks each of the given cells as safe (the order does not matter). */
    method MarkAllSafes(cells: set<Cell>, ghost m: set<Cell>, ghost sound: bool)
      requires Valid() && (sound ==> SoundFor(m) && cells !! m)
      modifies this, knowledge
      ensures Valid() && knowledge == old(knowledge)
      ensures movesMade == old(movesMade) && safes == old(safes) + cells && mines == old(mines)
      ensures Facts() == SafesMarkedAll(old(Facts()), cells)
      ensures sound ==> SoundFor(m)
    {
      var rest := cells;
      ghost var done: set<Cell> := {};
      MarkedNone(Facts());
      while rest != {}
        invariant Valid() && knowledge == old(knowledge)
        invariant done !! rest && done + rest == cells
        invariant movesMade == old(movesMade) && mines == old(mines) && safes == old(safes) + done
        invariant Facts() == SafesMarkedAll(old(Facts()), done)
        decreases rest
      {
        var c :| c in rest;
        MarkSafe(c);
        SafesMarkedStep(old(Facts()), done, c);
        done := done + {c};
        rest := rest - {c};
      }
      if sound {
        SafesMarkedAllHolds(old(Facts()), cells, m);
      }
    }

    /**
     * One subset comparison: when `small`'s cells are a proper subset of
     * `large`'s, the difference sentence is appended unless an equal
     * sentence (same cells, same count) is already known.
     */
    method AddDerived(small: Sentence, large: Sentence, ghost m: set<Cell>)
      requires Valid() && small in knowledge && large in knowledge
      modifies this`knowledge
      ensures Valid() && |knowledge| >= |old(knowledge)| && knowledge[..|old(knowledge)|] == old(knowledge)
      ensures var derived := Fact(large.cells - small.cells, large.count - small.count);
              Facts() == old(Facts()) + if small.cells < large.cells && derived !in old(Facts()) then [derived] else []
      ensures Facts() == Derived(old(Facts()), small.Value(), large.Value())
      ensures forall i | 0 <= i < |knowledge| :: knowledge[i] in old(knowledge) || fresh(knowledge[i])
      ensures old(AllHold(Facts(), m)) ==> AllHold(Facts(), m)
    {
      ghost var facts := Facts();
      if AllHold(facts, m) {
        var a :| 0 <= a < |knowledge| && knowledge[a] == small;
        var b :| 0 <= b < |knowledge| && knowledge[b] == large;
        assert facts[a] == small.Value() && facts[b] == large.Value();
        SubsetDerivedHolds(small.Value(), large.Value(), facts, m);
      }
      if small.cells < large.cells {
        var derived := Fact(large.cells - small.cells, large.count - small.count);
        if derived !in Facts() {
          Append(derived);
        }
      }
    }

    /** Appends a new sentence with the given value to the knowledge list. */
    method Append(f: Fact)
      requires Valid()
      modifies this`knowledge
      ensures Valid() && |knowledge| == |old(knowledge)| + 1 && knowledge[..|old(knowledge)|] == old(knowledge)
      ensures fresh(knowledge[|old(knowledge)|])
      ensures Facts() == old(Facts()) + [f]
    {
      var s := new Sentence(f.cells, f.count);
      knowledge := knowledge + [s];
    }

    /** `add_knowledge`: record the revealed cell's report, then infer. */
    method AddKnowledge(cell: Cell, count: int, fuel: nat, ghost m: set<Cell>)
      requires Valid()
      modifies this, knowledge
      ensures Valid()
      ensures movesMade == old(movesMade) + {cell} && cell in safes
      ensures old(mines) <= mines && old(safes) <= safes
      ensures old(SoundFor(m)) && cell !in m && count == |Around(cell, DefaultSize, DefaultSize) * m|
              ==> SoundFor(m)
    {
      RecordMove(cell, count, m);
      Infer(fuel, m);
    }

    /** A known-safe cell not yet played, or None when there is none. */
    method MakeSafeMove() returns (move: Option<Cell>)
      ensures move.None? <==> safes - movesMade == {}
      ensures move.Some? ==> move.value in safes && move.value !in movesMade
    {
      var available := safes - movesMade;
      if |available| == 0 {
        return None;
      }
      var c :| c in available;
      return Some(c);
    }

    /**
     * A cell of the default 8x8 board that is neither played nor a known
     * mine, or None when every cell is one of those.
     */
    method MakeRandomMove() returns (move: Option<Cell>)
      ensures move.None? <==> forall i, j | 0 <= i < DefaultSize && 0 <= j < DefaultSize ::
                                (i, j) in movesMade || (i, j) in mines
      ensures move.Some? ==> Within(move.value, DefaultSize, DefaultSize) &&
                             move.value !in movesMade && move.value !in mines
    {
      var h, w := DefaultSize, DefaultSize;
      var moves: set<Cell> := {};
      for i := 0 to h
        invariant forall c :: c in moves <==> 0 <= c.0 < i && 0 <= c.1 < w
      {
        for j := 0 to w
          invariant forall c :: c in moves <==> (0 <= c.0 < i && 0 <= c.1 < w) || (c.0 == i && 0 <= c.1 < j)
        {
          moves := moves + {(i, j)};
        }
      }
      var available := moves - movesMade - mines;
      if |available| == 0 {
        assert forall i, j | 0 <= i < h && 0 <= j < w :: (i, j) in movesMade || (i, j) in mines by {
          forall i, j | 0 <= i < h && 0 <= j < w ensures (i, j) in movesMade || (i, j) in mines {
            assert (i, j) in moves;
          }
        }
        return None;
      }
      var c :| c in available;
      return Some(c);
    }
  }

  /**
   * The sentences a report of `count` mines around `cell` adds: none when
   * every neighbour is known, else one over the neighbours that are
   * neither safe, played nor known mines, with the known mines taken off
   * the count.
   */
  function Report(cell: Cell, count: int, safes: set<Cell>, movesMade: set<Cell>, mines: set<Cell>): seq<Fact> {
    var unknown := Around(cell, DefaultSize, DefaultSize) - safes - movesMade;
    if unknown - mines == {} then [] else [Fact(unknown - mines, count - |unknown * mines|)]
  }

  /** A truthful report about a cell that is not a mine yields only facts that hold. */
  lemma ReportHolds(cell: Cell, count: int, safes: set<Cell>, movesMade: set<Cell>, mines: set<Cell>, m: set<Cell>)
    requires count == |Around(cell, DefaultSize, DefaultSize) * m|
    requires mines <= m && safes !! m && movesMade !! m
    ensures AllHold(Report(cell, count, safes, movesMade, mines), m)
  {
    var unknown := Around(cell, DefaultSize, DefaultSize) - safes - movesMade;
    NewSentenceHolds(cell, count, unknown, mines, m);
  }

  lemma AllHoldAppend(fs: seq<Fact>, gs: seq<Fact>, m: set<Cell>)
    requires AllHold(fs, m) && AllHold(gs, m)
    ensures AllHold(fs + gs, m)
  {
  }

  /** The sentence built from a truthful report holds. */
  lemma NewSentenceHolds(cell: Cell, count: int, unknown: set<Cell>, mines: set<Cell>, m: set<Cell>)
    requires count == |Around(cell, DefaultSize, DefaultSize) * m|
    requires unknown <= Around(cell, DefaultSize, DefaultSize)
    requires Around(cell, DefaultSize, DefaultSize) * m <= unknown
    requires mines <= m
    ensures Holds(Fact(unknown - mines, count - |unknown * mines|), m)
  {
    var near := Around(cell, DefaultSize, DefaultSize);
    assert unknown * m == near * m;
    assert (unknown - mines) * m == unknown * m - unknown * mines;
    assert unknown * mines <= unknown * m;
    assert unknown * m == (unknown * m - unknown * mines) + unknown * mines;
  }

  /** A sentence derived from two true sentences is true. */
  lemma SubsetDerivedHolds(small: Fact, large: Fact, fs: seq<Fact>, m: set<Cell>)
    requires AllHold(fs, m) && Holds(small, m) && Holds(large, m)
    ensures var derived := Fact(large.cells - small.cells, large.count - small.count);
            AllHold(fs + if small.cells < large.cells && derived !in fs then [derived] else [], m)
  {
    if small.cells < large.cells {
      SubsetDifferenceHolds(small, large, m);
    }
  }

  // ---------------------------------------------------------------------
  // The inference sweep as values
  // ---------------------------------------------------------------------

  /**
   * One subset comparison: when s's cells are a proper subset of t's, the
   * difference fact is appended unless an equal fact is already known.
   */
  function Derived(fs: seq<Fact>, s: Fact, t: Fact): seq<Fact> {
    var d := Fact(t.cells - s.cells, t.count - s.count);
    if s.cells < t.cells && d !in fs then fs + [d] else fs
  }

  /**
   * Fact i was appended by a comparison with s: it is the difference of an
   * earlier fact whose cells strictly contain s's, and was not yet known.
   */
  ghost predicate DerivedAt(r: seq<Fact>, s: Fact, i: int)
    requires 0 <= i < |r|
  {
    r[i] !in r[..i] &&
    exists t | 0 <= t < i :: s.cells < r[t].cells && r[i] == Fact(r[t].cells - s.cells, r[t].count - s.count)
  }

  /** Fact t has been compared with s: when its cells strictly contain s's, their difference is known. */
  ghost predicate ComparedAt(r: seq<Fact>, s: Fact, t: int)
    requires 0 <= t < |r|
  {
    s.cells < r[t].cells ==> Fact(r[t].cells - s.cells, r[t].count - s.count) in r
  }

  /**
   * The state of a sweep of s that started on the facts fs0 and has compared
   * facts 0 to j - 1: fs0 is kept as a prefix, every fact after it was
   * derived, and every compared fact has its difference known.
   */
  ghost predicate Swept(r: seq<Fact>, fs0: seq<Fact>, s: Fact, j: int) {
    |fs0| <= |r| && j <= |r| && r[..|fs0|] == fs0 &&
    (forall i | |fs0| <= i < |r| :: DerivedAt(r, s, i)) &&
    (forall t | 0 <= t < j :: ComparedAt(r, s, t))
  }

  /** Comparing s with fact j extends a sweep by one step. */
  lemma DerivedStep(fs: seq<Fact>, fs0: seq<Fact>, s: Fact, j: nat)
    requires j < |fs| && Swept(fs, fs0, s, j)
    ensures Swept(Derived(fs, s, fs[j]), fs0, s, j + 1)
  {
    var r := Derived(fs, s, fs[j]);
    if r != fs {
      assert r[..|fs|] == fs;
      assert r[..|fs0|] == fs[..|fs0|];
      forall i | |fs0| <= i < |r| ensures DerivedAt(r, s, i) {
        if i < |fs| {
          assert r[..i] == fs[..i];
          assert DerivedAt(fs, s, i);
          var t :| 0 <= t < i && s.cells < fs[t].cells && fs[i] == Fact(fs[t].cells - s.cells, fs[t].count - s.count);
          assert r[t] == fs[t];
        } else {
          assert r[..i] == fs && r[j] == fs[j];
        }
      }
      forall t | 0 <= t <= j ensures ComparedAt(r, s, t) {
        assert r[t] == fs[t];
        if t < j && s.cells < fs[t].cells {
          assert ComparedAt(fs, s, t);
        }
      }
    }
  }

  /**
   * The facts after the marking step for a sentence with value f: its
   * cells are marked as mines when it has known mines, otherwise they are
   * marked safe when it has known safe cells.
   */
  function KnownMarked(fs: seq<Fact>, f: Fact): seq<Fact> {
    if f.cells != {} && |f.cells| <= f.count then MinesMarkedAll(fs, f.cells)
    else if f.cells != {} && f.count == 0 then SafesMarkedAll(fs, f.cells)
    else fs
  }
}
