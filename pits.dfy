/** The pits of the game and the player's coin counter: spawning pits on
    the cells around the player, and moving single coins between a pit and
    the player. */
module Pits {
  import opened Board
  import opened Seeds

  /** The chance that a cell holds a pit. */
  const PitSpawnProbability: real := 0.1

  /** The visibility radius of the game's board, in tiles. */
  const NeighborhoodSize: int := 8

  /** The factor applied to a luck value to get a pit's initial coins. */
  const InitialCoinScale: real := 100.0

  /** The classroom the map starts at. */
  const MerrillClassroom: Point := Point(36.9995, -122.0533)

  /** The luck function yields values in [0, 1). */
  ghost predicate LuckRange(luck: string -> real) {
    forall s :: 0.0 <= luck(s) < 1.0
  }

  /** A per-cell draw yields values in [0, 1). */
  ghost predicate DrawRange(draw: Cell -> real) {
    forall c :: 0.0 <= draw(c) < 1.0
  }

  /** The draw that decides whether a cell holds a pit: luck("i,j"). */
  function SpawnLuck(luck: string -> real): Cell -> real {
    c => luck(CellSeed(c))
  }

  /** The draw that sizes a pit: luck("i,j,initialValue"). */
  function ValueLuck(luck: string -> real): Cell -> real {
    c => luck(ValueSeed(c))
  }

  lemma ValueLuckRange(luck: string -> real)
    requires LuckRange(luck)
    ensures DrawRange(ValueLuck(luck))
  {
    forall c ensures 0.0 <= ValueLuck(luck)(c) < 1.0 {
      assert ValueLuck(luck)(c) == luck(ValueSeed(c));
    }
  }

  /** A pit: its cell and the coins it holds. */
  datatype Pit = Pit(cell: Cell, coins: nat)

  /** Whether a pit is spawned on a cell. */
  predicate Spawns(c: Cell, spawnLuck: Cell -> real) {
    spawnLuck(c) < PitSpawnProbability
  }

  /** A pit's initial coins: the floor of its draw times 100. */
  function InitialCoins(c: Cell, valueLuck: Cell -> real): (n: nat)
    requires 0.0 <= valueLuck(c) < 1.0
    ensures n < 100
    ensures n as real <= valueLuck(c) * InitialCoinScale < n as real + 1.0
  {
    (valueLuck(c) * InitialCoinScale).Floor
  }

  /** The pits the spawn loop creates for `cells`, in order. */
  function Spawned(cells: seq<Cell>, spawnLuck: Cell -> real, valueLuck: Cell -> real): seq<Pit>
    requires DrawRange(valueLuck)
  {
    if cells == [] then []
    else
      var last := cells[|cells| - 1];
      Spawned(cells[..|cells| - 1], spawnLuck, valueLuck) +
        (if Spawns(last, spawnLuck) then [Pit(last, InitialCoins(last, valueLuck))] else [])
  }

  /** The coins held in a sequence of pits. */
  function TotalCoins(pits: seq<Pit>): nat {
    if pits == [] then 0 else TotalCoins(pits[..|pits| - 1]) + pits[|pits| - 1].coins
  }

  /** The counters of the game: every pit and the player's coins. */
  datatype Ledger = Ledger(pits: seq<Pit>, collected: nat)

  /** All coins in the game. */
  function Coins(l: Ledger): nat {
    l.collected + TotalCoins(l.pits)
  }

  // ---------------------------------------------------------------------
  // Sums

  lemma {:induction false} TotalAppend(a: seq<Pit>, b: seq<Pit>)
    ensures TotalCoins(a + b) == TotalCoins(a) + TotalCoins(b)
    decreases |b|
  {
    if b == [] {
      assert a + b == a;
    } else {
      var front := b[..|b| - 1];
      assert (a + b)[..|a + b| - 1] == a + front;
      TotalAppend(a, front);
    }
  }

  /** Replacing one pit changes the total by the difference of the two. */
  lemma {:induction false} TotalUpdate(pits: seq<Pit>, k: nat, p: Pit)
    requires k < |pits|
    ensures TotalCoins(pits[k := p]) + pits[k].coins == TotalCoins(pits) + p.coins
    decreases |pits|
  {
    var n := |pits|;
    var front, front' := pits[..n - 1], pits[k := p][..n - 1];
    if k == n - 1 {
      assert front' == front;
    } else {
      assert front' == front[k := p];
      TotalUpdate(front, k, p);
    }
  }

  // ---------------------------------------------------------------------
  // Collect and deposit

  /** Clicking "collect" on pit k: one coin moves to the player if the pit
      has one; otherwise nothing changes. */
  function AfterCollect(l: Ledger, k: nat): (r: Ledger)
    requires k < |l.pits|
    ensures Coins(r) == Coins(l)
    ensures |r.pits| == |l.pits|
    ensures forall m :: 0 <= m < |l.pits| && m != k ==> r.pits[m] == l.pits[m]
    ensures r.pits[k].cell == l.pits[k].cell
    ensures l.pits[k].coins > 0 ==> r.pits[k].coins == l.pits[k].coins - 1 && r.collected == l.collected + 1
    ensures l.pits[k].coins == 0 ==> r == l
  {
    var p := l.pits[k];
    if p.coins > 0 then
      var p' := p.(coins := p.coins - 1);
      TotalUpdate(l.pits, k, p');
      Ledger(l.pits[k := p'], l.collected + 1)
    else
      l
  }

  /** Clicking "deposit" on pit k: one coin moves from the player to the pit
      if the player has one; otherwise nothing changes. */
  function AfterDeposit(l: Ledger, k: nat): (r: Ledger)
    requires k < |l.pits|
    ensures Coins(r) == Coins(l)
    ensures |r.pits| == |l.pits|
    ensures forall m :: 0 <= m < |l.pits| && m != k ==> r.pits[m] == l.pits[m]
    ensures r.pits[k].cell == l.pits[k].cell
    ensures l.collected > 0 ==> r.pits[k].coins == l.pits[k].coins + 1 && r.collected == l.collected - 1
    ensures l.collected == 0 ==> r == l
  {
    var p := l.pits[k];
    if l.collected > 0 then
      var p' := p.(coins := p.coins + 1);
      TotalUpdate(l.pits, k, p');
      Ledger(l.pits[k := p'], l.collected - 1)
    else
      l
  }

  /** A successful collect followed by a deposit on the same pit restores
      both counters. */
  lemma CollectThenDeposit(l: Ledger, k: nat)
    requires k < |l.pits| && l.pits[k].coins > 0
    ensures AfterDeposit(AfterCollect(l, k), k) == l
  {
    var r := AfterDeposit(AfterCollect(l, k), k);
    assert r.pits == l.pits by {
      assert forall m :: 0 <= m < |l.pits| ==> r.pits[m] == l.pits[m];
    }
  }

  /** A deposit followed by a collect on the same pit restores both
      counters. */
  lemma DepositThenCollect(l: Ledger, k: nat)
    requires k < |l.pits| && l.collected > 0
    ensures AfterCollect(AfterDeposit(l, k), k) == l
  {
    var r := AfterCollect(AfterDeposit(l, k), k);
    assert r.pits == l.pits by {
      assert forall m :: 0 <= m < |l.pits| ==> r.pits[m] == l.pits[m];
    }
  }

  /** A click on a pit's collect or deposit button. */
  datatype Click = CollectAt(pit: nat) | DepositAt(pit: nat)

  predicate ClicksFit(clicks: seq<Click>, n: nat) {
    forall t :: 0 <= t < |clicks| ==> clicks[t].pit < n
  }

  /** The counters after a sequence of clicks. */
  function Run(l: Ledger, clicks: seq<Click>): Ledger
    requires ClicksFit(clicks, |l.pits|)
    decreases |clicks|
  {
    if clicks == [] then l
    else
      var l' := match clicks[0]
        case CollectAt(k) => AfterCollect(l, k)
        case DepositAt(k) => AfterDeposit(l, k);
      Run(l', clicks[1..])
  }

  /** Any sequence of clicks keeps the number of coins in the game and the
      pits' cells. */
  lemma {:induction false} RunConserves(l: Ledger, clicks: seq<Click>)
    requires ClicksFit(clicks, |l.pits|)
    ensures Coins(Run(l, clicks)) == Coins(l)
    ensures |Run(l, clicks).pits| == |l.pits|
    ensures forall m :: 0 <= m < |l.pits| ==> Run(l, clicks).pits[m].cell == l.pits[m].cell
    decreases |clicks|
  {
    if clicks != [] {
      var l' := match clicks[0]
        case CollectAt(k) => AfterCollect(l, k)
        case DepositAt(k) => AfterDeposit(l, k);
      assert ClicksFit(clicks[1..], |l'.pits|) by {
        forall t | 0 <= t < |clicks| - 1 ensures clicks[1..][t].pit < |l'.pits| {
          assert clicks[1..][t] == clicks[t + 1];
        }
      }
      RunConserves(l', clicks[1..]);
    }
  }

  // ---------------------------------------------------------------------
  // Spawning

  /** The spawn loop creates a pit for exactly the cells that pass the luck
      test, in the order of `cells`, each with its initial coins: `idx`
      lists, ascending, the positions in `cells` of the spawned pits. */
  lemma {:induction false} SpawnedSpec(cells: seq<Cell>, spawnLuck: Cell -> real, valueLuck: Cell -> real) returns (idx: seq<nat>)
    requires DrawRange(valueLuck)
    ensures |idx| == |Spawned(cells, spawnLuck, valueLuck)|
    ensures forall k :: 0 <= k < |idx| ==>
      idx[k] < |cells| && Spawned(cells, spawnLuck, valueLuck)[k] == Pit(cells[idx[k]], InitialCoins(cells[idx[k]], valueLuck))
    ensures forall k, l :: 0 <= k < l < |idx| ==> idx[k] < idx[l]
    ensures forall t :: 0 <= t < |cells| ==> (Spawns(cells[t], spawnLuck) <==> t in idx)
    decreases |cells|
  {
    if cells == [] {
      idx := [];
    } else {
      var n: nat := |cells| - 1;
      var front, last := cells[..n], cells[n];
      var idx0 := SpawnedSpec(front, spawnLuck, valueLuck);
      var s0, s := Spawned(front, spawnLuck, valueLuck), Spawned(cells, spawnLuck, valueLuck);
      var added: seq<nat> := if Spawns(last, spawnLuck) then [n] else [];
      idx := idx0 + added;
      assert s == s0 + (if Spawns(last, spawnLuck) then [Pit(last, InitialCoins(last, valueLuck))] else []);
      forall k | 0 <= k < |idx|
        ensures idx[k] < |cells| && s[k] == Pit(cells[idx[k]], InitialCoins(cells[idx[k]], valueLuck))
      {
        if k < |idx0| {
          assert idx[k] == idx0[k] && s[k] == s0[k] && cells[idx0[k]] == front[idx0[k]];
        }
      }
      forall k, l | 0 <= k < l < |idx| ensures idx[k] < idx[l] {
        if l < |idx0| {
          assert idx[k] == idx0[k] && idx[l] == idx0[l];
        } else {
          assert idx[k] == idx0[k] < n;
        }
      }
      assert n !in idx0 by {
        forall k | 0 <= k < |idx0| ensures idx0[k] != n {
          assert idx0[k] < |front|;
        }
      }
      forall t | 0 <= t < |cells| ensures Spawns(cells[t], spawnLuck) <==> t in idx {
        if t < n {
          assert cells[t] == front[t];
          assert Spawns(front[t], spawnLuck) <==> t in idx0;
          assert t in idx <==> t in idx0;
        } else {
          assert (t in idx) == (n in added);
        }
      }
    }
  }

  /** Spawning on distinct cells gives pits on distinct cells. */
  lemma SpawnedDistinct(cells: seq<Cell>, spawnLuck: Cell -> real, valueLuck: Cell -> real)
    requires DrawRange(valueLuck)
    requires forall p, q :: 0 <= p < |cells| && 0 <= q < |cells| && p != q ==> cells[p] != cells[q]
    ensures forall p, q :: 0 <= p < |Spawned(cells, spawnLuck, valueLuck)| && 0 <= q < |Spawned(cells, spawnLuck, valueLuck)| && p != q ==>
      Spawned(cells, spawnLuck, valueLuck)[p].cell != Spawned(cells, spawnLuck, valueLuck)[q].cell
  {
    var idx := SpawnedSpec(cells, spawnLuck, valueLuck);
    var s := Spawned(cells, spawnLuck, valueLuck);
    forall p, q | 0 <= p < |s| && 0 <= q < |s| && p != q ensures s[p].cell != s[q].cell {
      if p < q { assert idx[p] < idx[q]; } else { assert idx[q] < idx[p]; }
    }
  }

  // ---------------------------------------------------------------------
  // The game

  class Game {
    /** The pits in the order they were spawned, each with its counter. */
    var pits: seq<Pit>
    /** The coins the player has collected. */
    var collectedCoins: nat

    function State(): Ledger
      reads this
    {
      Ledger(pits, collectedCoins)
    }

    constructor ()
      ensures pits == [] && collectedCoins == 0
    {
      pits := [];
      collectedCoins := 0;
    }

    /** Creates a pit on `cell` with its initial coins. */
    method MakePit(cell: Cell, luck: string -> real)
      requires 0.0 <= luck(ValueSeed(cell)) < 1.0
      modifies this
      ensures pits == old(pits) + [Pit(cell, InitialCoins(cell, ValueLuck(luck)))]
      ensures collectedCoins == old(collectedCoins)
    {
      var coins := (luck(ValueSeed(cell)) * InitialCoinScale).Floor;
      pits := pits + [Pit(cell, coins)];
    }

    /** The collect handler of pit k. */
    method Collect(k: nat) returns (ok: bool)
      requires k < |pits|
      modifies this
      ensures ok <==> old(pits[k].coins) > 0
      ensures State() == AfterCollect(old(State()), k)
      ensures Coins(State()) == Coins(old(State()))
    {
      if pits[k].coins > 0 {
        pits := pits[k := pits[k].(coins := pits[k].coins - 1)];
        collectedCoins := collectedCoins + 1;
        ok := true;
      } else {
        ok := false;
      }
    }

    /** The deposit handler of pit k. */
    method Deposit(k: nat) returns (ok: bool)
      requires k < |pits|
      modifies this
      ensures ok <==> old(collectedCoins) > 0
      ensures State() == AfterDeposit(old(State()), k)
      ensures Coins(State()) == Coins(old(State()))
    {
      if collectedCoins > 0 {
        pits := pits[k := pits[k].(coins := pits[k].coins + 1)];
        collectedCoins := collectedCoins - 1;
        ok := true;
      } else {
        ok := false;
      }
    }

    /** The spawn loop: a pit for every cell that passes the luck test, in
        order. */
    method SpawnPits(cells: seq<Cell>, luck: string -> real)
      requires LuckRange(luck)
      modifies this
      ensures DrawRange(ValueLuck(luck))
      ensures pits == old(pits) + Spawned(cells, SpawnLuck(luck), ValueLuck(luck))
      ensures collectedCoins == old(collectedCoins)
      ensures Coins(State()) == Coins(old(State())) + TotalCoins(Spawned(cells, SpawnLuck(luck), ValueLuck(luck)))
    {
      ValueLuckRange(luck);
      for n := 0 to |cells|
        invariant pits == old(pits) + Spawned(cells[..n], SpawnLuck(luck), ValueLuck(luck))
        invariant collectedCoins == old(collectedCoins)
      {
        var cell := cells[n];
        assert cells[..n + 1][..n] == cells[..n];
        if luck(CellSeed(cell)) < PitSpawnProbability {
          MakePit(cell, luck);
        }
      }
      assert cells[..|cells|] == cells;
      TotalAppend(old(pits), Spawned(cells, SpawnLuck(luck), ValueLuck(luck)));
    }
  }

  /** The start of the game: a board of tile width 1 and radius 8, no coins
      collected, and pits spawned on the cells around the classroom. */
  method StartGame(quantize: real -> int, luck: string -> real) returns (board: Board, game: Game, cells: seq<Cell>)
    requires LuckRange(luck)
    ensures fresh(board) && fresh(game)
    ensures board.tileWidth == 1 && board.tileVisibilityRadius == NeighborhoodSize
    ensures cells == NearCells(CellOf(MerrillClassroom, quantize), NeighborhoodSize, 1)
    ensures |cells| == 256
    ensures DrawRange(ValueLuck(luck))
    ensures game.collectedCoins == 0 && game.pits == Spawned(cells, SpawnLuck(luck), ValueLuck(luck))
    ensures forall p, q :: 0 <= p < |game.pits| && 0 <= q < |game.pits| && p != q ==>
      game.pits[p].cell != game.pits[q].cell
  {
    board := new Board(1, NeighborhoodSize);
    game := new Game();
    cells := board.GetCellsNearPoint(MerrillClassroom, quantize);
    GameNeighbourhoodSize(CellOf(MerrillClassroom, quantize));
    NearCellsSorted(CellOf(MerrillClassroom, quantize), NeighborhoodSize, 1);
    game.SpawnPits(cells, luck);
    SpawnedDistinct(cells, SpawnLuck(luck), ValueLuck(luck));
  }
}
