// The wiring of the distributed simulation: rank arithmetic of my_metro_tile.cpp and
// my_metro_fake_mem.cpp, and the memory controller map of pyhplib.py.
module MetroGrid {
  import opened Common
  import opened Lockstep
  import opened MpiProtocol
  import opened MpiRuns

  const EAST: nat := 0
  const NORTH: nat := 1
  const WEST: nat := 2
  const SOUTH: nat := 3

  // One entry of the controller map: the tile and the tile's port it hangs on.
  datatype Mc = Mc(x: nat, y: nat, port: nat)

  datatype Grid = Grid(t1: nat, t2: nat, mcs: seq<Mc>)

  ghost predicate OnBoundary(t1: nat, t2: nat, m: Mc) {
    && m.x < t1 && m.y < t2 && m.port < PORTS
    && (m.port == EAST ==> m.x + 1 == t1)
    && (m.port == NORTH ==> m.y == 0)
    && (m.port == WEST ==> m.x == 0 && m.y != 0)
    && (m.port == SOUTH ==> m.y + 1 == t2)
  }

  // Controllers hang on distinct free ports of the grid's edge; the west port of
  // the first tile is the chipset's.
  ghost predicate WellFormed(g: Grid) {
    && g.t1 > 0 && g.t2 > 0
    && (forall m :: 0 <= m < |g.mcs| ==> OnBoundary(g.t1, g.t2, g.mcs[m]))
    && (forall m, m' :: 0 <= m < m' < |g.mcs| ==> g.mcs[m] != g.mcs[m'])
  }

  // ---------- ranks ----------

  function RankFromXY(t1: nat, x: nat, y: nat): (r: nat) {
    1 + (x + t1 * y)
  }

  function DimX(t1: nat, r: nat): nat
    requires t1 > 0
  {
    if r == 0 then 0 else (r - 1) % t1
  }

  function DimY(t1: nat, r: nat): nat
    requires t1 > 0
  {
    if r == 0 then 0 else (r - 1) / t1
  }

  // The first entry of the map for a tile's port, from entry m on.
  function EdgeFrom(g: Grid, x: nat, y: nat, port: nat, m: nat): Option<nat>
    requires m <= |g.mcs|
    decreases |g.mcs| - m
  {
    if m == |g.mcs| then None
    else if g.mcs[m] == Mc(x, y, port) then Some(m + 1 + g.t1 * g.t2)
    else EdgeFrom(g, x, y, port, m + 1)
  }

  function EdgeRank(g: Grid, x: nat, y: nat, port: nat): Option<nat> {
    EdgeFrom(g, x, y, port, 0)
  }

  // get_edge_rank
  method GetEdgeRank(g: Grid, x: nat, y: nat, port: nat) returns (r: Option<nat>)
    ensures r == EdgeRank(g, x, y, port)
  {
    var m := 0;
    while m < |g.mcs|
      invariant 0 <= m <= |g.mcs|
      invariant EdgeRank(g, x, y, port) == EdgeFrom(g, x, y, port, m)
    {
      if g.mcs[m].x == x && g.mcs[m].y == y && g.mcs[m].port == port {
        return Some(m + 1 + g.t1 * g.t2);
      }
      m := m + 1;
    }
    r := None;
  }

  function RankN(g: Grid, x: nat, y: nat): Option<nat> {
    if y == 0 then EdgeRank(g, x, y, NORTH) else Some(RankFromXY(g.t1, x, y - 1))
  }

  function RankS(g: Grid, x: nat, y: nat): Option<nat> {
    if y + 1 == g.t2 then EdgeRank(g, x, y, SOUTH) else Some(RankFromXY(g.t1, x, y + 1))
  }

  function RankE(g: Grid, x: nat, y: nat): Option<nat> {
    if x + 1 == g.t1 then EdgeRank(g, x, y, EAST) else Some(RankFromXY(g.t1, x + 1, y))
  }

  function RankW(g: Grid, x: nat, y: nat): Option<nat> {
    if x == 0 && y == 0 then Some(0)
    else if x == 0 then EdgeRank(g, x, y, WEST)
    else Some(RankFromXY(g.t1, x - 1, y))
  }

  // MY_RANK of a tile.
  function TilePorts(g: Grid, x: nat, y: nat): (ports: seq<Option<nat>>)
    ensures |ports| == PORTS
  {
    [RankE(g, x, y), RankN(g, x, y), RankW(g, x, y), RankS(g, x, y)]
  }

  // A chipset or controller process has one channel; seen from the grid it is the
  // side facing the tile's port.
  function OnePort(port: nat, dest: nat): (ports: seq<Option<nat>>)
    requires port < PORTS
    ensures |ports| == PORTS
    ensures forall p :: 0 <= p < PORTS ==> ports[p] == if p == Opp(port) then Some(dest) else None
  {
    [None, None, None, None][Opp(port) := Some(dest)]
  }

  function PortsOf(g: Grid, r: nat): (ports: seq<Option<nat>>)
    requires g.t1 > 0
    ensures |ports| == PORTS
  {
    var tiles := g.t1 * g.t2;
    if r == 0 then OnePort(WEST, 1)
    else if r <= tiles then TilePorts(g, DimX(g.t1, r), DimY(g.t1, r))
    else if r - tiles - 1 < |g.mcs| && g.mcs[r - tiles - 1].port < PORTS then
      var m := g.mcs[r - tiles - 1];
      OnePort(m.port, RankFromXY(g.t1, m.x, m.y))
    else [None, None, None, None]
  }

  function NetOf(g: Grid): (net: Net)
    requires g.t1 > 0
    ensures |net| == 1 + g.t1 * g.t2 + |g.mcs|
    ensures forall r :: 0 <= r < |net| ==> net[r] == PortsOf(g, r)
  {
    seq(1 + g.t1 * g.t2 + |g.mcs|, r requires 0 <= r => PortsOf(g, r))
  }

  // ---------- rank arithmetic ----------

  lemma Row(t1: nat, y: nat, t2: nat)
    requires y < t2
    ensures t1 * y + t1 <= t1 * t2
  {
    assert t1 * t2 == t1 * (y + 1) + t1 * (t2 - (y + 1));
  }

  // Ranks and coordinates are the same thing.
  lemma RankOfXY(t1: nat, t2: nat, x: nat, y: nat)
    requires x < t1 && y < t2
    ensures 1 <= RankFromXY(t1, x, y) <= t1 * t2
    ensures DimX(t1, RankFromXY(t1, x, y)) == x && DimY(t1, RankFromXY(t1, x, y)) == y
  {
    Row(t1, y, t2);
    Quotient(x + t1 * y, t1, y, x);
  }

  lemma XYOfRank(t1: nat, t2: nat, r: nat)
    requires 1 <= r <= t1 * t2 && t1 > 0
    ensures DimX(t1, r) < t1 && DimY(t1, r) < t2 && RankFromXY(t1, DimX(t1, r), DimY(t1, r)) == r
  {
    var y := (r - 1) / t1;
    if y >= t2 {
      assert t1 * y >= t1 * t2 by {
        if y > t2 {
          Row(t1, t2, y);
        }
      }
    }
  }

  lemma {:induction false} EdgeIs(g: Grid, x: nat, y: nat, port: nat, m: nat, k: nat)
    requires m <= k <= |g.mcs|
    requires forall i :: m <= i < k ==> g.mcs[i] != Mc(x, y, port)
    ensures EdgeFrom(g, x, y, port, m) ==
      if k < |g.mcs| && g.mcs[k] == Mc(x, y, port) then Some(k + 1 + g.t1 * g.t2) else EdgeFrom(g, x, y, port, k)
    decreases k - m
  {
    if m < k {
      EdgeIs(g, x, y, port, m + 1, k);
    }
  }

  lemma {:induction false} EdgeSound(g: Grid, x: nat, y: nat, port: nat, m: nat)
    requires m <= |g.mcs|
    ensures var r := EdgeFrom(g, x, y, port, m);
      r.Some? ==>
        && g.t1 * g.t2 + 1 + m <= r.value <= g.t1 * g.t2 + |g.mcs|
        && g.mcs[r.value - g.t1 * g.t2 - 1] == Mc(x, y, port)
    decreases |g.mcs| - m
  {
    if m < |g.mcs| {
      EdgeSound(g, x, y, port, m + 1);
    }
  }

  // ---------- the derived net ----------

  // The rank of the tile at (x, y), and its row of the net.
  lemma TileRow(g: Grid, x: nat, y: nat) returns (r: nat)
    requires WellFormed(g) && x < g.t1 && y < g.t2
    ensures r == RankFromXY(g.t1, x, y) && 1 <= r <= g.t1 * g.t2
    ensures NetOf(g)[r] == TilePorts(g, x, y)
  {
    r := RankFromXY(g.t1, x, y);
    RankOfXY(g.t1, g.t2, x, y);
  }

  // A tile names its controller and its controller names it.
  lemma EdgeLink(g: Grid, x: nat, y: nat, port: nat)
    requires WellFormed(g) && port < PORTS && EdgeRank(g, x, y, port).Some?
    ensures var e := EdgeRank(g, x, y, port).value;
      && g.t1 * g.t2 < e < |NetOf(g)|
      && NetOf(g)[e] == OnePort(port, RankFromXY(g.t1, x, y))
  {
    EdgeSound(g, x, y, port, 0);
  }

  lemma ChipsetRow(g: Grid)
    requires g.t1 > 0
    ensures NetOf(g)[0] == OnePort(WEST, RankFromXY(g.t1, 0, 0))
  {
  }

  lemma TileSymmetric(g: Grid, x: nat, y: nat, p: nat)
    requires WellFormed(g) && x < g.t1 && y < g.t2 && p < PORTS && TilePorts(g, x, y)[p].Some?
    ensures var q := TilePorts(g, x, y)[p].value;
      q < |NetOf(g)| && NetOf(g)[q][Opp(p)] == Some(RankFromXY(g.t1, x, y))
  {
    hide PortsOf;
    hide RankFromXY;
    hide EdgeRank;
    hide EdgeFrom;
    var r := TileRow(g, x, y);
    if p == EAST && x + 1 < g.t1 {
      var q := TileRow(g, x + 1, y);
    } else if p == NORTH && y > 0 {
      var q := TileRow(g, x, y - 1);
    } else if p == WEST && x > 0 {
      var q := TileRow(g, x - 1, y);
    } else if p == SOUTH && y + 1 < g.t2 {
      var q := TileRow(g, x, y + 1);
    } else if p != WEST || y != 0 {
      EdgeLink(g, x, y, p);
    } else {
      ChipsetRow(g);
    }
  }

  // Where a tile's ports lead, in ranks: 1 + x + t1 * y is tile (x, y), 0 the chipset,
  // and the controllers follow the tiles in the order of the map.
  lemma TileNeighbours(g: Grid, x: nat, y: nat, r: nat)
    requires WellFormed(g) && x < g.t1 && y < g.t2 && r == 1 + x + g.t1 * y
    ensures r < |NetOf(g)|
    ensures x + 1 < g.t1 ==> NetOf(g)[r][EAST] == Some(r + 1)
    ensures y > 0 ==> NetOf(g)[r][NORTH] == Some(r - g.t1)
    ensures x > 0 ==> NetOf(g)[r][WEST] == Some(r - 1)
    ensures y + 1 < g.t2 ==> NetOf(g)[r][SOUTH] == Some(r + g.t1)
    ensures x == 0 && y == 0 ==> NetOf(g)[r][WEST] == Some(0)
  {
    hide PortsOf;
    hide EdgeRank;
    var q := TileRow(g, x, y);
    if x + 1 < g.t1 {
      StepEast(g, x, y);
    }
    if x > 0 {
      StepEast(g, x - 1, y);
    }
    if y > 0 {
      StepSouth(g, x, y - 1);
    }
    if y + 1 < g.t2 {
      StepSouth(g, x, y);
    }
  }

  // Entry m of the map is the process behind the tiles with that number; it and its
  // tile's port lead to each other, and it has no other link.
  lemma {:induction false} ControllerLinks(g: Grid, m: nat, r: nat, e: nat)
    requires WellFormed(g) && m < |g.mcs|
    requires r == 1 + g.mcs[m].x + g.t1 * g.mcs[m].y && e == 1 + g.t1 * g.t2 + m
    ensures r < e < |NetOf(g)| && g.mcs[m].port < PORTS
    ensures NetOf(g)[r][g.mcs[m].port] == Some(e)
    ensures NetOf(g)[e] == [None, None, None, None][Opp(g.mcs[m].port) := Some(r)]
  {
    hide PortsOf;
    var c := g.mcs[m];
    assert OnBoundary(g.t1, g.t2, c);
    var q := TileRow(g, c.x, c.y);
    assert TilePorts(g, c.x, c.y)[c.port] == EdgeRank(g, c.x, c.y, c.port);
    EdgeIs(g, c.x, c.y, c.port, 0, m);
    EdgeLink(g, c.x, c.y, c.port);
  }

  // A port on the edge with no controller leads nowhere.
  lemma {:induction false} NoController(g: Grid, x: nat, y: nat, port: nat, r: nat)
    requires WellFormed(g) && r == 1 + x + g.t1 * y
    requires OnBoundary(g.t1, g.t2, Mc(x, y, port)) && Mc(x, y, port) !in g.mcs
    ensures r < |NetOf(g)| && NetOf(g)[r][port] == None
  {
    hide PortsOf;
    var q := TileRow(g, x, y);
    assert TilePorts(g, x, y)[port] == EdgeRank(g, x, y, port);
    EdgeIs(g, x, y, port, 0, |g.mcs|);
  }

  lemma FirstRank(t1: nat)
    ensures RankFromXY(t1, 0, 0) == 1
  {
  }

  lemma StepEast(g: Grid, x: nat, y: nat)
    requires x + 1 < g.t1 && y < g.t2
    ensures RankFromXY(g.t1, x + 1, y) == RankFromXY(g.t1, x, y) + 1 <= g.t1 * g.t2
    ensures 1 <= RankFromXY(g.t1, x, y)
  {
    RankOfXY(g.t1, g.t2, x + 1, y);
  }

  lemma StepSouth(g: Grid, x: nat, y: nat)
    requires x < g.t1 && y + 1 < g.t2
    ensures RankFromXY(g.t1, x, y + 1) == RankFromXY(g.t1, x, y) + g.t1 <= g.t1 * g.t2
    ensures 1 <= RankFromXY(g.t1, x, y)
  {
    RankOfXY(g.t1, g.t2, x, y + 1);
    assert g.t1 * (y + 1) == g.t1 * y + g.t1;
  }

  // Where each port of a tile leads, as numbers.
  lemma TilePortIs(g: Grid, x: nat, y: nat, p: nat)
    requires WellFormed(g) && x < g.t1 && y < g.t2 && p < PORTS && TilePorts(g, x, y)[p].Some?
    ensures var q, r := TilePorts(g, x, y)[p].value, RankFromXY(g.t1, x, y);
      || (q > g.t1 * g.t2 && q - g.t1 * g.t2 - 1 < |g.mcs| && g.mcs[q - g.t1 * g.t2 - 1].port == p)
      || (q <= g.t1 * g.t2 &&
          ((p == EAST && q == r + 1 && g.t1 > 1)
          || (p == NORTH && q == r - g.t1 && q > 0)
          || (p == WEST && q == r - 1 && (q > 0 ==> g.t1 > 1))
          || (p == SOUTH && q == r + g.t1)))
  {
    hide EdgeFrom;
    hide RankFromXY;
    if p == EAST && x + 1 < g.t1 {
      StepEast(g, x, y);
    } else if p == NORTH && y > 0 {
      StepSouth(g, x, y - 1);
    } else if p == WEST && x > 0 {
      StepEast(g, x - 1, y);
    } else if p == SOUTH && y + 1 < g.t2 {
      StepSouth(g, x, y);
    } else if p != WEST || y != 0 {
      EdgeSound(g, x, y, p, 0);
    } else {
      FirstRank(g.t1);
    }
  }

  lemma TileDistinct(g: Grid, x: nat, y: nat, p: nat, p': nat)
    requires WellFormed(g) && x < g.t1 && y < g.t2 && p < PORTS && p' < PORTS
    requires TilePorts(g, x, y)[p].Some? && TilePorts(g, x, y)[p] == TilePorts(g, x, y)[p']
    ensures p == p'
  {
    TilePortIs(g, x, y, p);
    TilePortIs(g, x, y, p');
  }

  lemma RowSymmetric(g: Grid, r: nat, p: nat)
    requires WellFormed(g) && r < |NetOf(g)| && p < PORTS && NetOf(g)[r][p].Some?
    ensures var q := NetOf(g)[r][p].value; q < |NetOf(g)| && NetOf(g)[q][Opp(p)] == Some(r)
  {
    var tiles := g.t1 * g.t2;
    if r == 0 {
      var t := TileRow(g, 0, 0);
    } else if r <= tiles {
      XYOfRank(g.t1, g.t2, r);
      TileSymmetric(g, DimX(g.t1, r), DimY(g.t1, r), p);
    } else {
      var m := g.mcs[r - tiles - 1];
      assert OnBoundary(g.t1, g.t2, m);
      var t := TileRow(g, m.x, m.y);
      EdgeIs(g, m.x, m.y, m.port, 0, r - tiles - 1);
    }
  }

  lemma RowDistinct(g: Grid, r: nat, p: nat, p': nat)
    requires WellFormed(g) && r < |NetOf(g)| && p < PORTS && p' < PORTS
    requires NetOf(g)[r][p].Some? && NetOf(g)[r][p] == NetOf(g)[r][p']
    ensures p == p'
  {
    if 0 < r <= g.t1 * g.t2 {
      XYOfRank(g.t1, g.t2, r);
      TileDistinct(g, DimX(g.t1, r), DimY(g.t1, r), p, p');
    }
  }

  // The neighbour relation of every grid is symmetric: east and west invert each
  // other, north and south do, rank 1's west is the chipset, and each controller
  // and its tile name each other.
  lemma GridIsWired(g: Grid)
    requires WellFormed(g)
    ensures WellWired(NetOf(g))
    ensures NetOf(g)[1][WEST] == Some(0) && NetOf(g)[0][EAST] == Some(1)
  {
    var net: Net := NetOf(g);
    forall r, p | 0 <= r < |net| && 0 <= p < PORTS && net[r][p].Some?
      ensures net[r][p].value < |net| && net[net[r][p].value][Opp(p)] == Some(r)
    {
      RowSymmetric(g, r, p);
    }
    forall r, p, p' | 0 <= r < |net| && 0 <= p < PORTS && 0 <= p' < PORTS && net[r][p].Some? && net[r][p] == net[r][p']
      ensures p == p'
    {
      RowDistinct(g, r, p, p');
    }
    var t := TileRow(g, 0, 0);
  }

  // ---------- waits on a grid ----------

  // East receives wait on larger x, north receives on smaller y, west receives on
  // nobody's receive, and in the same round nothing waits on a south receive.
  function Measure(g: Grid, r: nat, i: nat): nat
    requires g.t1 > 0
  {
    if r == 0 || r > g.t1 * g.t2 then g.t2 * (g.t1 + 1) + 1
    else if i == SOUTH then g.t2 * (g.t1 + 1)
    else DimY(g.t1, r) * (g.t1 + 1) + (g.t1 - DimX(g.t1, r))
  }

  function Waiting(g: Grid): (nat, nat) -> nat
    requires g.t1 > 0
  {
    (r: nat, i: nat) => if g.t1 > 0 then Measure(g, r, i) else 0
  }

  lemma TileMeasure(g: Grid, x: nat, y: nat, i: nat)
    requires WellFormed(g) && x < g.t1 && y < g.t2
    ensures Measure(g, RankFromXY(g.t1, x, y), i) ==
      if i == SOUTH then g.t2 * (g.t1 + 1) else y * (g.t1 + 1) + (g.t1 - x)
    ensures i != SOUTH ==> Measure(g, RankFromXY(g.t1, x, y), i) < g.t2 * (g.t1 + 1)
  {
    RankOfXY(g.t1, g.t2, x, y);
    Row(g.t1 + 1, y, g.t2);
  }

  lemma TileWaits(g: Grid, x: nat, y: nat, i: nat, j: nat)
    requires WellFormed(g) && x < g.t1 && y < g.t2 && i < PORTS && TilePorts(g, x, y)[i].Some? && j < Opp(i)
    requires var q := TilePorts(g, x, y)[i].value; q < |NetOf(g)| && NetOf(g)[q][j].Some?
    ensures Measure(g, TilePorts(g, x, y)[i].value, j) < Measure(g, RankFromXY(g.t1, x, y), i)
  {
    hide Measure;
    hide EdgeRank;
    hide PortsOf;
    TileMeasure(g, x, y, i);
    if i == EAST && x + 1 < g.t1 {
      TileMeasure(g, x + 1, y, j);
    } else if i == NORTH && y > 0 {
      TileMeasure(g, x, y - 1, j);
      assert y * (g.t1 + 1) == (y - 1) * (g.t1 + 1) + (g.t1 + 1);
    } else if i == SOUTH && y + 1 < g.t2 {
      TileMeasure(g, x, y + 1, j);
    } else if i != WEST {
      EdgeLink(g, x, y, i);
    }
  }

  // The chipset and the controllers wait for tiles only.
  lemma EndWaits(g: Grid, r: nat, i: nat, j: nat)
    requires WellFormed(g) && r < |NetOf(g)| && (r == 0 || r > g.t1 * g.t2) && i < PORTS && NetOf(g)[r][i].Some?
    ensures Measure(g, NetOf(g)[r][i].value, j) < Measure(g, r, i)
  {
    hide EdgeRank;
    hide DimX;
    hide DimY;
    hide RankFromXY;
    FirstRank(g.t1);
    var m := if r == 0 then Mc(0, 0, WEST) else g.mcs[r - g.t1 * g.t2 - 1];
    assert m.x < g.t1 && m.y < g.t2 by {
      assert r > 0 ==> OnBoundary(g.t1, g.t2, m);
    }
    assert NetOf(g)[r] == OnePort(m.port, RankFromXY(g.t1, m.x, m.y));
    TileMeasure(g, m.x, m.y, j);
  }

  lemma RowWaits(g: Grid, r: nat, i: nat, j: nat)
    requires WellFormed(g) && WellWired(NetOf(g)) && r < |NetOf(g)| && i < PORTS && NetOf(g)[r][i].Some? && j < Opp(i)
    requires NetOf(g)[NetOf(g)[r][i].value][j].Some?
    ensures Measure(g, NetOf(g)[r][i].value, j) < Measure(g, r, i)
  {
    hide Measure;
    hide EdgeRank;
    if 0 < r <= g.t1 * g.t2 {
      XYOfRank(g.t1, g.t2, r);
      TileWaits(g, DimX(g.t1, r), DimY(g.t1, r), i, j);
    } else {
      EndWaits(g, r, i, j);
    }
  }

  lemma GridWaits(g: Grid)
    requires WellFormed(g) && WellWired(NetOf(g))
    ensures Waits(NetOf(g), Waiting(g))
  {
    forall r, i, j | 0 <= r < |NetOf(g)| && 0 <= i < PORTS && NetOf(g)[r][i].Some? && 0 <= j < Opp(i)
                     && NetOf(g)[NetOf(g)[r][i].value][j].Some?
      ensures Measure(g, NetOf(g)[r][i].value, j) < Measure(g, r, i)
    {
      RowWaits(g, r, i, j);
    }
  }

  // ---------- the simulation of a whole grid ----------

  // On every grid, whatever its size and its controllers and however the processes
  // interleave, while some process has not left its main loop some process can step.
  lemma {:induction false} GridNeverSticks<S, M>(g: Grid, c: Config<S, M>, schedule: seq<nat>, r: nat)
    requires WellFormed(g) && c.net == NetOf(g) && ValidConfig(c) && Run(c, schedule).Some? && r < |c.net|
    ensures WellSized(c, Run(c, schedule).value)
    ensures Done(Run(c, schedule).value.procs[r]) || exists e :: 0 <= e < |c.net| && Run(c, schedule + [e]).Some?
  {
    hide Sync;
    hide Run;
    hide NetOf;
    hide Waits;
    hide Waiting;
    hide WellSized;
    GridWaits(g);
    NoDeadlock(c, Waiting(g), schedule, r);
  }

  // If the grid's lock-step machine finishes by phase k, every run of the processes
  // is of bounded length, and where it can go no further all have left their loops.
  lemma {:induction false} GridFinishes<S, M>(g: Grid, c: Config<S, M>, schedule: seq<nat>, k: nat)
    requires WellFormed(g) && c.net == NetOf(g) && ValidConfig(c) && Run(c, schedule).Some?
    requires forall r :: 0 <= r < |c.net| ==> Sync(c, k)[r].ctl.Finished?
    ensures |schedule| <= |c.net| * (PHASE_STEPS * k)
    ensures WellSized(c, Run(c, schedule).value)
    ensures (forall e :: 0 <= e < |c.net| ==> Run(c, schedule + [e]).None?) ==>
      forall r :: 0 <= r < |c.net| ==> Done(Run(c, schedule).value.procs[r])
  {
    hide Sync;
    hide Run;
    hide NetOf;
    hide Waits;
    hide Waiting;
    hide WellSized;
    GridWaits(g);
    EveryRunFinishes(c, Waiting(g), schedule, k);
  }
}

// get_mc_mapping of pyhplib.py.
module McMapping {
  import opened Common
  import opened Lockstep
  import opened MetroGrid

  datatype Entry = Entry(id: nat, mc: Mc, endp: nat)

  datatype Request = Request(tilesX: nat, tilesY: nat, wanted: seq<int>, mcNum: nat, xbar: bool)

  // Where tile (i, j) gets its controller, and that controller's endpoint number;
  // tile 0's west port is the off-chip connection.
  function EntryFor(q: Request, i: nat, j: nat): Option<Entry> {
    var id, endp := i + j * q.tilesX, q.tilesX * q.tilesY;
    if i == 0 && j != 0 then Some(Entry(id, Mc(i, j, WEST), endp + q.tilesX + q.tilesX + j))
    else if j == 0 then Some(Entry(id, Mc(i, j, NORTH), endp + i))
    else if j + 1 == q.tilesY then Some(Entry(id, Mc(i, j, SOUTH), endp + q.tilesX + i))
    else if i + 1 == q.tilesX then Some(Entry(id, Mc(i, j, EAST), endp + q.tilesX + q.tilesX + q.tilesY + j))
    else None
  }

  function IndexOf(s: seq<int>, id: int): (k: nat)
    requires id in s
    ensures k < |s| && s[k] == id && forall k' :: 0 <= k' < k ==> s[k'] != id
  {
    if s[0] == id then 0 else IndexOf(s[1..], id) + 1
  }

  // list.insert, which appends when the index is past the end.
  function InsertAt<T>(s: seq<T>, k: nat, x: T): seq<T> {
    if k <= |s| then s[..k] + [x] + s[k..] else s + [x]
  }

  predicate Candidate(q: Request, i: nat, j: nat) {
    !q.xbar && i + j * q.tilesX in q.wanted && EntryFor(q, i, j).Some?
  }

  function StepMap(q: Request, map_: seq<Entry>, i: nat, j: nat): seq<Entry> {
    if Candidate(q, i, j) && |map_| < q.mcNum then
      InsertAt(map_, IndexOf(q.wanted, i + j * q.tilesX), EntryFor(q, i, j).value)
    else map_
  }

  // The map after columns 0..i and rows 0..j of column i.
  function MapTo(q: Request, i: nat, j: nat): seq<Entry>
    decreases i, j
  {
    if j > 0 then StepMap(q, MapTo(q, i, j - 1), i, j - 1)
    else if i > 0 then MapTo(q, i - 1, q.tilesY)
    else []
  }

  method GetMcMapping(q: Request) returns (mcMap: seq<Entry>)
    ensures mcMap == MapTo(q, q.tilesX, 0)
  {
    hide IndexOf;
    var edgeIdx := 0;
    mcMap := [];
    for i := 0 to q.tilesX
      invariant mcMap == MapTo(q, i, 0) && edgeIdx == |mcMap|
    {
      for j := 0 to q.tilesY
        invariant mcMap == MapTo(q, i, j) && edgeIdx == |mcMap|
      {
        assert MapTo(q, i, j + 1) == StepMap(q, mcMap, i, j);
        var flatid := i + j * q.tilesX;
        var endp := q.tilesX * q.tilesY;
        if !q.xbar && edgeIdx < q.mcNum && flatid in q.wanted {
          var index := IndexOf(q.wanted, flatid);
          if i == 0 && j != 0 {
            mcMap := InsertAt(mcMap, index, Entry(flatid, Mc(i, j, WEST), endp + q.tilesX + q.tilesX + j));
            edgeIdx := edgeIdx + 1;
          } else if j == 0 {
            mcMap := InsertAt(mcMap, index, Entry(flatid, Mc(i, j, NORTH), endp + i));
            edgeIdx := edgeIdx + 1;
          } else if j == q.tilesY - 1 {
            mcMap := InsertAt(mcMap, index, Entry(flatid, Mc(i, j, SOUTH), endp + q.tilesX + i));
            edgeIdx := edgeIdx + 1;
          } else if i == q.tilesX - 1 {
            mcMap := InsertAt(mcMap, index, Entry(flatid, Mc(i, j, EAST), endp + q.tilesX + q.tilesX + q.tilesY + j));
            edgeIdx := edgeIdx + 1;
          }
        }
      }
    }
  }

  // Tile (x, y) comes before (i, j) in the order the loops visit them.
  predicate Before(x: nat, y: nat, i: nat, j: nat) {
    x < i || (x == i && y < j)
  }

  ghost predicate GoodMap(q: Request, s: seq<Entry>, i: nat, j: nat) {
    && (forall k :: 0 <= k < |s| ==>
          Before(s[k].mc.x, s[k].mc.y, i, j) && s[k].mc.x < q.tilesX && s[k].mc.y < q.tilesY
          && Candidate(q, s[k].mc.x, s[k].mc.y) && s[k] == EntryFor(q, s[k].mc.x, s[k].mc.y).value)
    && (forall k, k' :: 0 <= k < k' < |s| ==> (s[k].mc.x, s[k].mc.y) != (s[k'].mc.x, s[k'].mc.y))
  }

  lemma StepGood(q: Request, s: seq<Entry>, i: nat, j: nat)
    requires i < q.tilesX && j < q.tilesY && GoodMap(q, s, i, j)
    ensures GoodMap(q, StepMap(q, s, i, j), i, j + 1)
  {
    hide IndexOf;
    if StepMap(q, s, i, j) != s {
      var e := EntryFor(q, i, j).value;
      assert e.mc.x == i && e.mc.y == j;
    }
  }

  lemma NextColumn(q: Request, s: seq<Entry>, i: nat)
    requires i > 0 && GoodMap(q, s, i - 1, q.tilesY)
    ensures GoodMap(q, s, i, 0)
  {
  }

  lemma NothingMapped(q: Request)
    ensures GoodMap(q, [], 0, 0)
  {
  }

  lemma {:induction false} MapGood(q: Request, i: nat, j: nat)
    requires j <= q.tilesY && (i < q.tilesX || (i == q.tilesX && j == 0))
    ensures GoodMap(q, MapTo(q, i, j), i, j)
    decreases i, j
  {
    hide StepMap;
    hide GoodMap;
    if j > 0 {
      MapGood(q, i, j - 1);
      StepGood(q, MapTo(q, i, j - 1), i, j - 1);
    } else if i > 0 {
      MapGood(q, i - 1, q.tilesY);
      NextColumn(q, MapTo(q, i, j), i);
    } else {
      NothingMapped(q);
    }
  }

  function McsOf(s: seq<Entry>): (mcs: seq<Mc>)
    ensures |mcs| == |s| && forall k :: 0 <= k < |s| ==> mcs[k] == s[k].mc
  {
    seq(|s|, k requires 0 <= k < |s| => s[k].mc)
  }

  // Different tiles get different endpoints, numbered after the tiles.
  lemma EndpointsDiffer(q: Request, x: nat, y: nat, x': nat, y': nat)
    requires x < q.tilesX && x' < q.tilesX && y < q.tilesY && y' < q.tilesY && (x, y) != (x', y')
    requires EntryFor(q, x, y).Some? && EntryFor(q, x', y').Some?
    ensures EntryFor(q, x, y).value.endp != EntryFor(q, x', y').value.endp
    ensures EntryFor(q, x, y).value.endp >= q.tilesX * q.tilesY
  {
  }

  // The edge tiles are the candidates that are asked for.
  lemma CandidateIs(q: Request, x: nat, y: nat)
    requires x < q.tilesX && y < q.tilesY
    ensures Candidate(q, x, y) <==>
      !q.xbar && x + y * q.tilesX in q.wanted && (x == 0 || y == 0 || x + 1 == q.tilesX || y + 1 == q.tilesY)
  {
  }

  // An entry's numbers: the ports' endpoints follow the tiles' in the order north,
  // south, west, east, each by its column or row.
  ghost predicate Numbered(q: Request, e: Entry) {
    var x, y, tiles := e.mc.x, e.mc.y, q.tilesX * q.tilesY;
    && e.id == x + y * q.tilesX
    && (e.mc.port == WEST <==> x == 0 && y > 0)
    && (e.mc.port == NORTH <==> y == 0)
    && (e.mc.port == SOUTH <==> x > 0 && y > 0 && y + 1 == q.tilesY)
    && (e.mc.port == NORTH ==> e.endp == tiles + x)
    && (e.mc.port == SOUTH ==> e.endp == tiles + q.tilesX + x)
    && (e.mc.port == WEST ==> e.endp == tiles + 2 * q.tilesX + y)
    && (e.mc.port == EAST ==> e.endp == tiles + 2 * q.tilesX + q.tilesY + y)
  }

  // The map always describes a grid the simulation can run on: every controller on
  // a real port of the edge, never tile 0's west port, no port used twice; and no
  // two controllers share an endpoint.
  lemma {:induction false} MappingIsWellFormed(q: Request)
    requires q.tilesX > 0 && q.tilesY > 0
    ensures var s := MapTo(q, q.tilesX, 0);
      && WellFormed(Grid.Grid(q.tilesX, q.tilesY, McsOf(s)))
      && (forall k, k' :: 0 <= k < k' < |s| ==> s[k].endp != s[k'].endp)
      && forall k :: 0 <= k < |s| ==> Numbered(q, s[k])
  {
    var s := MapTo(q, q.tilesX, 0);
    MapGood(q, q.tilesX, 0);
    forall k, k' | 0 <= k < k' < |s|
      ensures s[k].endp != s[k'].endp
    {
      EndpointsDiffer(q, s[k].mc.x, s[k].mc.y, s[k'].mc.x, s[k'].mc.y);
    }
    forall k | 0 <= k < |s|
      ensures OnBoundary(q.tilesX, q.tilesY, s[k].mc)
    {
    }
  }

  // How many candidates the loops visit before (i, j).
  function CandidatesTo(q: Request, i: nat, j: nat): nat
    decreases i, j
  {
    if j > 0 then CandidatesTo(q, i, j - 1) + (if Candidate(q, i, j - 1) then 1 else 0)
    else if i > 0 then CandidatesTo(q, i - 1, q.tilesY)
    else 0
  }

  ghost predicate Mapped(s: seq<Entry>, x: nat, y: nat) {
    exists k :: 0 <= k < |s| && s[k].mc.x == x && s[k].mc.y == y
  }

  lemma {:induction false} MapSize(q: Request, i: nat, j: nat)
    ensures |MapTo(q, i, j)| == if CandidatesTo(q, i, j) <= q.mcNum then CandidatesTo(q, i, j) else q.mcNum
    decreases i, j
  {
    if j > 0 {
      MapSize(q, i, j - 1);
    } else if i > 0 {
      MapSize(q, i - 1, q.tilesY);
    }
  }

  lemma StepMapped(q: Request, s: seq<Entry>, i: nat, j: nat, x: nat, y: nat)
    ensures Mapped(StepMap(q, s, i, j), x, y) <==>
      Mapped(s, x, y) || (x == i && y == j && Candidate(q, i, j) && |s| < q.mcNum)
  {
    var s' := StepMap(q, s, i, j);
    if s' != s {
      var k := IndexOf(q.wanted, i + j * q.tilesX);
      if k > |s| {
        assert s'[|s|].mc == EntryFor(q, i, j).value.mc;
        assert forall m :: 0 <= m < |s| ==> s'[m] == s[m];
      } else {
        assert s'[k].mc == EntryFor(q, i, j).value.mc;
        assert forall m :: 0 <= m < k ==> s'[m] == s[m];
        assert forall m :: k <= m < |s| ==> s'[m + 1] == s[m];
      }
    }
  }

  // Exactly the first mcNum edge tiles asked for, in the order of the loops, get
  // a controller.
  lemma {:induction false} MappedIff(q: Request, i: nat, j: nat, x: nat, y: nat)
    requires j <= q.tilesY && y < q.tilesY
    ensures Mapped(MapTo(q, i, j), x, y) <==>
      Before(x, y, i, j) && Candidate(q, x, y) && CandidatesTo(q, x, y) < q.mcNum
    decreases i, j
  {
    if j > 0 {
      MappedIff(q, i, j - 1, x, y);
      StepMapped(q, MapTo(q, i, j - 1), i, j - 1, x, y);
      MapSize(q, i, j - 1);
    } else if i > 0 {
      MappedIff(q, i - 1, q.tilesY, x, y);
    }
  }
}
