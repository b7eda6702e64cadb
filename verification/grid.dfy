/** The square lookup table the hyper-network engine indexes links and
    segments with: a flat list of x*y cells addressed by (x, y) pairs. */
module Grid {

  /** Row-major flat table; cell (i, j) lives at position i * ySize + j. */
  datatype Grid<T> = Grid(xSize: nat, ySize: nat, data: seq<set<T>>) {

    predicate Valid()
    {
      |data| == xSize * ySize
    }

    predicate InRange(i: int, j: int)
    {
      0 <= i < xSize && 0 <= j < ySize
    }

    /** Flat position of cell (i, j). */
    function Index(i: int, j: int): (p: nat)
      requires Valid() && InRange(i, j)
      ensures p < |data|
    {
      FlatIndexInBounds(i, j, xSize, ySize);
      i * ySize + j
    }

    function Get(i: int, j: int): set<T>
      requires Valid() && InRange(i, j)
    {
      data[Index(i, j)]
    }

    /** Adds `e` to the set stored in cell (i, j). */
    function Add(i: int, j: int, e: T): (g: Grid<T>)
      requires Valid() && InRange(i, j)
      ensures g.Valid() && g.xSize == xSize && g.ySize == ySize
      ensures g.Get(i, j) == Get(i, j) + {e}
      ensures forall i', j' :: InRange(i', j') && (i', j') != (i, j) ==> g.Get(i', j') == Get(i', j')
    {
      var p := Index(i, j);
      forall i', j' | InRange(i', j') && (i', j') != (i, j)
        ensures Index(i', j') != p
      {
        FlatIndexInjective(i, j, i', j', ySize);
      }
      this.(data := data[p := data[p] + {e}])
    }

    /** The table seen as a map from index pairs to cells. */
    function View(): (m: map<(int, int), set<T>>)
      requires Valid()
      ensures forall i, j :: InRange(i, j) <==> (i, j) in m
      ensures forall i, j :: InRange(i, j) ==> m[(i, j)] == Get(i, j)
    {
      map i, j | 0 <= i < xSize && 0 <= j < ySize :: (i, j) := Get(i, j)
    }
  }

  lemma MulSucc(a: int, y: int)
    ensures (a + 1) * y == a * y + y
  {
  }

  /** Multiplying by a natural number keeps order. */
  lemma {:induction false} MulMono(a: nat, b: nat, y: nat)
    requires a <= b
    ensures a * y <= b * y
    decreases b - a
  {
    if a < b {
      MulSucc(a, y);
      MulMono(a + 1, b, y);
    }
  }

  lemma FlatIndexInBounds(i: int, j: int, x: nat, y: nat)
    requires 0 <= i < x && 0 <= j < y
    ensures 0 <= i * y + j < x * y
  {
    MulSucc(i, y);
    MulMono(i + 1, x, y);
    MulMono(0, i, y);
  }

  /** Distinct in-range pairs occupy distinct flat positions. */
  lemma FlatIndexInjective(i: int, j: int, i': int, j': int, y: nat)
    requires 0 <= i && 0 <= j < y && 0 <= i' && 0 <= j' < y
    requires (i, j) != (i', j')
    ensures i * y + j != i' * y + j'
  {
    if i < i' {
      MulSucc(i, y);
      MulMono(i + 1, i', y);
    } else if i' < i {
      MulSucc(i', y);
      MulMono(i' + 1, i, y);
    }
  }

  /** A fresh table: every cell holds its own copy of `default`. */
  function Create<T>(x: nat, y: nat, default: set<T>): (g: Grid<T>)
    ensures g.Valid() && g.xSize == x && g.ySize == y
    ensures forall i, j :: g.InRange(i, j) ==> g.Get(i, j) == default
  {
    var g := Grid(x, y, seq(x * y, _ => default));
    assert forall i, j :: g.InRange(i, j) ==> g.Index(i, j) < x * y;
    g
  }

  /** The table seen as a map: a missing key reads as an empty cell. */
  type Cells<T> = map<(int, int), set<T>>

  function Cell<T>(c: Cells<T>, k: (int, int)): set<T>
  {
    if k in c then c[k] else {}
  }

  /** `e` added to cell `k`, every other cell untouched. */
  function Put<T>(c: Cells<T>, k: (int, int), e: T): (c': Cells<T>)
    ensures Cell(c', k) == Cell(c, k) + {e}
    ensures forall k' :: k' != k ==> Cell(c', k') == Cell(c, k')
  {
    c[k := Cell(c, k) + {e}]
  }

  /** The elements filed under cell `k` in a set of (cell, element)
      entries, the form in which the hyper-network keeps its tables. */
  function EntryCell<T>(es: set<((int, int), T)>, k: (int, int)): set<T>
  {
    set p | p in es && p.0 == k :: p.1
  }

  /** Table `g` holds exactly the entries `es`, cell by cell. */
  predicate Holds<T>(g: Grid<T>, es: set<((int, int), T)>)
  {
    g.Valid() && forall i, j | 0 <= i < g.xSize && 0 <= j < g.ySize :: g.Get(i, j) == EntryCell(es, (i, j))
  }

  /** A fresh table of empty cells holds no entry. */
  lemma CreateHolds<T>(x: nat, y: nat)
    ensures Holds(Create<T>(x, y, {}), {})
  {
  }

  /** Adding `e` to cell (i, j) of a table holding `es` gives a table
      holding `es` with the one entry ((i, j), e) more: a set of entries
      stands for the table as long as every entry lies in range. */
  lemma AddHolds<T>(g: Grid<T>, es: set<((int, int), T)>, i: int, j: int, e: T)
    requires Holds(g, es) && g.InRange(i, j)
    ensures Holds(g.Add(i, j, e), es + {((i, j), e)})
  {
    var g' := g.Add(i, j, e);
    var es' := es + {((i, j), e)};
    forall i', j' | g'.InRange(i', j')
      ensures g'.Get(i', j') == EntryCell(es', (i', j'))
    {
      if (i', j') == (i, j) {
        assert EntryCell(es', (i, j)) == EntryCell(es, (i, j)) + {e};
      } else {
        assert EntryCell(es', (i', j')) == EntryCell(es, (i', j'));
      }
    }
  }

  /** Adding to the flat table is adding to the one cell of its map view:
      the cells of a table never share storage. */
  lemma {:induction false} AddIsPut<T>(g: Grid<T>, i: int, j: int, e: T)
    requires g.Valid() && g.InRange(i, j)
    ensures g.Add(i, j, e).View() == Put(g.View(), (i, j), e)
  {
    var l := g.Add(i, j, e).View();
    var r := Put(g.View(), (i, j), e);
    assert l.Keys == r.Keys;
    forall k | k in l
      ensures l[k] == r[k]
    {
    }
  }

  /** Every cell of a fresh table holds the default and nothing else. */
  lemma {:induction false} CreateView<T>(x: nat, y: nat, default: set<T>)
    ensures forall i, j :: 0 <= i < x && 0 <= j < y ==> Cell(Create(x, y, default).View(), (i, j)) == default
    ensures forall i, j :: !(0 <= i < x && 0 <= j < y) ==> Cell(Create(x, y, default).View(), (i, j)) == {}
  {
  }
}
