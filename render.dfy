/** game_build_ascii_map stated as a sequence of stores into the snapshot
    grid: the border, then the food, then every joined snake in slot
    order. A cell ends up holding the glyph of the last store aimed at it,
    which gives the rendering rules: the border shows '#', food '*', a
    snake its glyphs and an untouched cell a space. */
module Render {
  import opened Protocol
  import opened World
  import opened Rules
  import opened Engine

  const BlankGlyph: char := ' '
  const WallGlyph: char := '#'
  const FoodGlyph: char := '*'
  const CorpseGlyph: char := 'x'

  /** One store: glyph `ch` into the grid cell of board position `cell`. */
  datatype Write = Write(cell: Pos, ch: char)

  /** The grid index of a board position: row-major, `width` per row. */
  function At(width: U8, p: Pos): int {
    p.y * width + p.x
  }

  /** A position with room on a board of this size. */
  predicate OnGrid(width: U8, height: U8, p: Pos) {
    p.x < width && p.y < height
  }

  lemma AtBounds(width: U8, height: U8, p: Pos)
    requires OnGrid(width, height, p)
    ensures 0 <= At(width, p) < width * height
  {
    assert p.y * width <= (height - 1) * width;
  }

  /** Distinct positions on the grid have distinct indices. */
  lemma AtInjective(width: U8, height: U8, p: Pos, q: Pos)
    requires OnGrid(width, height, p) && OnGrid(width, height, q) && p != q
    ensures At(width, p) != At(width, q)
  {
    if p.y < q.y {
      RowBefore(width, p.y, q.y);
    } else if q.y < p.y {
      RowBefore(width, q.y, p.y);
    }
  }

  /** Every index of an earlier row is below the start of a later row. */
  lemma RowBefore(width: U8, a: nat, b: nat)
    requires a < b
    ensures a * width + width <= b * width
  {
    assert (a + 1) * width <= b * width;
  }

  /** A store whose index falls outside the buffer is dropped. Every
      store of a rendering under the engine invariant is on the grid
      (RenderOnGrid), so this never happens. */
  function Put(grid: seq<char>, width: U8, wr: Write): (r: seq<char>)
    ensures |r| == |grid|
  {
    var i := At(width, wr.cell);
    if 0 <= i < |grid| then grid[i := wr.ch] else grid
  }

  /** The stores performed in order. */
  function Apply(grid: seq<char>, width: U8, ws: seq<Write>): (r: seq<char>)
    decreases |ws|
    ensures |r| == |grid|
  {
    if ws == [] then grid
    else Put(Apply(grid, width, ws[..|ws| - 1]), width, ws[|ws| - 1])
  }

  lemma ApplySnoc(grid: seq<char>, width: U8, ws: seq<Write>, wr: Write)
    ensures Apply(grid, width, ws + [wr]) == Put(Apply(grid, width, ws), width, wr)
  {
    assert (ws + [wr])[..|ws|] == ws;
  }

  /** The index of the last store aimed at `p`, or -1 when there is none. */
  function LastWrite(ws: seq<Write>, p: Pos): (r: int)
    decreases |ws|
    ensures -1 <= r < |ws|
    ensures r == -1 <==> forall k :: 0 <= k < |ws| ==> ws[k].cell != p
    ensures r != -1 ==> ws[r].cell == p && forall k :: r < k < |ws| ==> ws[k].cell != p
  {
    if ws == [] then -1
    else if ws[|ws| - 1].cell == p then |ws| - 1
    else LastWrite(ws[..|ws| - 1], p)
  }

  predicate AllOnGrid(width: U8, height: U8, ws: seq<Write>) {
    forall k :: 0 <= k < |ws| ==> OnGrid(width, height, ws[k].cell)
  }

  /** When every store is on the grid, the cell of `p` holds the glyph of
      the last store aimed at `p`, or its old content when none is. */
  lemma {:induction false} ApplyLast(grid: seq<char>, width: U8, height: U8, ws: seq<Write>, p: Pos)
    requires width * height <= |grid| && AllOnGrid(width, height, ws) && OnGrid(width, height, p)
    decreases |ws|
    ensures 0 <= At(width, p) < |grid|
    ensures Apply(grid, width, ws)[At(width, p)] ==
              if LastWrite(ws, p) == -1 then grid[At(width, p)] else ws[LastWrite(ws, p)].ch
  {
    AtBounds(width, height, p);
    if ws != [] {
      var n := |ws| - 1;
      ApplyLast(grid, width, height, ws[..n], p);
      assert LastWrite(ws[..n], p) == LastWrite(ws, p) || ws[n].cell == p;
      if ws[n].cell != p {
        AtBounds(width, height, ws[n].cell);
        AtInjective(width, height, p, ws[n].cell);
      }
    }
  }

  /** An index that no store aims at keeps its old content. */
  lemma {:induction false} ApplyUntouched(grid: seq<char>, width: U8, ws: seq<Write>, i: int)
    requires 0 <= i < |grid| && forall k :: 0 <= k < |ws| ==> At(width, ws[k].cell) != i
    decreases |ws|
    ensures Apply(grid, width, ws)[i] == grid[i]
  {
    if ws != [] {
      ApplyUntouched(grid, width, ws[..|ws| - 1], i);
    }
  }

  /** In a concatenation the last store aimed at `p` is the second part's
      last one when there is one, and otherwise the first part's. */
  lemma LastWriteAppend(a: seq<Write>, b: seq<Write>, p: Pos)
    ensures LastWrite(b, p) != -1 ==>
              LastWrite(a + b, p) == |a| + LastWrite(b, p) &&
              (a + b)[LastWrite(a + b, p)] == b[LastWrite(b, p)]
    ensures LastWrite(b, p) == -1 ==> LastWrite(a + b, p) == LastWrite(a, p)
    ensures LastWrite(b, p) == -1 && LastWrite(a, p) != -1 ==>
              (a + b)[LastWrite(a + b, p)] == a[LastWrite(a, p)]
  {
    if LastWrite(b, p) != -1 {
      assert (a + b)[|a| + LastWrite(b, p)] == b[LastWrite(b, p)];
    } else if LastWrite(a, p) != -1 {
      assert (a + b)[LastWrite(a, p)] == a[LastWrite(a, p)];
    }
  }

  // ---------------------------------------------------------------------
  // The stores of game_build_ascii_map

  /** The first border loop: top and bottom cell of columns 0..n-1. */
  function RowWrites(width: U8, height: U8, n: nat): seq<Write>
    requires 1 <= height && n <= width
  {
    if n == 0 then []
    else RowWrites(width, height, n - 1) +
         [Write(Pos(n - 1, 0), WallGlyph), Write(Pos(n - 1, height - 1), WallGlyph)]
  }

  /** The second border loop: left and right cell of rows 0..n-1. */
  function ColWrites(width: U8, height: U8, n: nat): seq<Write>
    requires 1 <= width && n <= height
  {
    if n == 0 then []
    else ColWrites(width, height, n - 1) +
         [Write(Pos(0, n - 1), WallGlyph), Write(Pos(width - 1, n - 1), WallGlyph)]
  }

  /** The food loop. */
  function FoodWrites(food: seq<Pos>): seq<Write> {
    if food == [] then []
    else FoodWrites(food[..|food| - 1]) + [Write(food[|food| - 1], FoodGlyph)]
  }

  /** One glyph for each of cells lo..hi-1. */
  function CellWrites(cells: seq<Pos>, lo: nat, hi: nat, ch: char): seq<Write>
    requires hi <= |cells|
  {
    if hi <= lo then []
    else CellWrites(cells, lo, hi - 1, ch) + [Write(cells[hi - 1], ch)]
  }

  /** The head store of a snake: present when it has any segment. */
  function HeadWrite(s: nat, pl: Player): seq<Write>
    requires PlayerShape(pl)
  {
    if pl.len > 0 then [Write(pl.cells[0], HeadChar(s))] else []
  }

  /** The stores for slot `s`: nothing when not joined; every segment as
      a corpse when dead with segments; otherwise the head glyph on
      segment 0 and the body glyph on segments 1..len-1. */
  function SnakeWrites(s: nat, pl: Player): seq<Write>
    requires PlayerShape(pl)
  {
    if !pl.joined then []
    else if !pl.alive && pl.len > 0 then CellWrites(pl.cells, 0, pl.len, CorpseGlyph)
    else HeadWrite(s, pl) + CellWrites(pl.cells, 1, pl.len, BodyChar(s))
  }

  /** The snake loop over slots 0..n-1. */
  function PlayerWrites(players: seq<Player>, n: nat): seq<Write>
    requires n <= |players| && forall s :: 0 <= s < |players| ==> PlayerShape(players[s])
  {
    if n == 0 then []
    else PlayerWrites(players, n - 1) + SnakeWrites(n - 1, players[n - 1])
  }

  lemma RowStep(width: U8, height: U8, n: nat)
    requires 1 <= height && n < width
    ensures RowWrites(width, height, n + 1) ==
      RowWrites(width, height, n) + [Write(Pos(n, 0), WallGlyph)] + [Write(Pos(n, height - 1), WallGlyph)]
  {}

  lemma ColStep(width: U8, height: U8, n: nat, rows: seq<Write>)
    requires 1 <= width && n < height
    ensures rows + ColWrites(width, height, n + 1) ==
      rows + ColWrites(width, height, n) + [Write(Pos(0, n), WallGlyph)] + [Write(Pos(width - 1, n), WallGlyph)]
  {}

  lemma PlayerWritesStep(done: seq<Write>, players: seq<Player>, n: nat)
    requires n < |players| && forall s :: 0 <= s < |players| ==> PlayerShape(players[s])
    ensures done + PlayerWrites(players, n + 1) == done + PlayerWrites(players, n) + SnakeWrites(n, players[n])
  {}

  function BorderWrites(w: World): seq<Write>
    requires 1 <= w.width && 1 <= w.height
  {
    RowWrites(w.width, w.height, w.width) + ColWrites(w.width, w.height, w.height)
  }

  function Writes(w: World): seq<Write>
    requires ShapeOk(w) && 1 <= w.width && 1 <= w.height
  {
    BorderWrites(w) + FoodWrites(w.food) + PlayerWrites(w.players, MaxPlayers)
  }

  /** The grid before any store: all spaces. */
  function BlankGrid(): (r: seq<char>)
    ensures |r| == StateMaxCells && forall i :: 0 <= i < |r| ==> r[i] == BlankGlyph
  {
    seq(StateMaxCells, _ => BlankGlyph)
  }

  /** game_build_ascii_map. */
  function Render(w: World): (r: seq<char>)
    requires ShapeOk(w) && 1 <= w.width && 1 <= w.height
    ensures |r| == StateMaxCells
  {
    Apply(BlankGrid(), w.width, Writes(w))
  }

  // ---------------------------------------------------------------------
  // What each part of the rendering stores

  /** A border cell of the board. */
  predicate Border(width: U8, height: U8, p: Pos) {
    OnGrid(width, height, p) && (p.x == 0 || p.y == 0 || p.x + 1 == width || p.y + 1 == height)
  }

  /** Segment `j` of joined slot `s` lies on `p`. */
  predicate Segment(players: seq<Player>, s: int, j: int, p: Pos) {
    0 <= s < |players| && players[s].joined && 0 <= j < players[s].len &&
    j < |players[s].cells| && players[s].cells[j] == p
  }

  lemma {:induction false} RowWritesShape(width: U8, height: U8, n: nat)
    requires 1 <= height && n <= width
    ensures forall k :: 0 <= k < |RowWrites(width, height, n)| ==>
              Border(width, height, RowWrites(width, height, n)[k].cell) &&
              RowWrites(width, height, n)[k].ch == WallGlyph
    ensures forall p: Pos :: p.x < n && (p.y == 0 || p.y + 1 == height) ==> LastWrite(RowWrites(width, height, n), p) != -1
  {
    if n > 0 {
      RowWritesShape(width, height, n - 1);
      var a: seq<Write> := RowWrites(width, height, n - 1);
      var b: seq<Write> := [Write(Pos(n - 1, 0), WallGlyph), Write(Pos(n - 1, height - 1), WallGlyph)];
      assert RowWrites(width, height, n) == a + b;
      forall k | 0 <= k < |a + b|
        ensures Border(width, height, (a + b)[k].cell) && (a + b)[k].ch == WallGlyph
      {
        if k < |a| {
          assert (a + b)[k] == a[k];
        } else {
          assert (a + b)[k] == b[k - |a|];
        }
      }
      forall p: Pos | p.x < n && (p.y == 0 || p.y + 1 == height) ensures LastWrite(a + b, p) != -1 {
        LastWriteAppend(a, b, p);
        if p.x == n - 1 {
          assert b[0].cell == p || b[1].cell == p;
        }
      }
    }
  }

  lemma {:induction false} ColWritesShape(width: U8, height: U8, n: nat)
    requires 1 <= width && n <= height
    ensures forall k :: 0 <= k < |ColWrites(width, height, n)| ==>
              Border(width, height, ColWrites(width, height, n)[k].cell) &&
              ColWrites(width, height, n)[k].ch == WallGlyph
    ensures forall p: Pos :: p.y < n && (p.x == 0 || p.x + 1 == width) ==> LastWrite(ColWrites(width, height, n), p) != -1
  {
    if n > 0 {
      ColWritesShape(width, height, n - 1);
      var a: seq<Write> := ColWrites(width, height, n - 1);
      var b: seq<Write> := [Write(Pos(0, n - 1), WallGlyph), Write(Pos(width - 1, n - 1), WallGlyph)];
      assert ColWrites(width, height, n) == a + b;
      forall k | 0 <= k < |a + b|
        ensures Border(width, height, (a + b)[k].cell) && (a + b)[k].ch == WallGlyph
      {
        if k < |a| {
          assert (a + b)[k] == a[k];
        } else {
          assert (a + b)[k] == b[k - |a|];
        }
      }
      forall p: Pos | p.y < n && (p.x == 0 || p.x + 1 == width) ensures LastWrite(a + b, p) != -1 {
        LastWriteAppend(a, b, p);
        if p.y == n - 1 {
          assert b[0].cell == p || b[1].cell == p;
        }
      }
    }
  }

  /** The border stores put '#' on border cells only, and on every one. */
  lemma BorderWritesShape(w: World)
    requires 1 <= w.width && 1 <= w.height
    ensures forall k :: 0 <= k < |BorderWrites(w)| ==>
              Border(w.width, w.height, BorderWrites(w)[k].cell) && BorderWrites(w)[k].ch == WallGlyph
    ensures forall p :: Border(w.width, w.height, p) ==> LastWrite(BorderWrites(w), p) != -1
  {
    var a: seq<Write> := RowWrites(w.width, w.height, w.width);
    var b: seq<Write> := ColWrites(w.width, w.height, w.height);
    RowWritesShape(w.width, w.height, w.width);
    ColWritesShape(w.width, w.height, w.height);
    forall k | 0 <= k < |a + b|
      ensures Border(w.width, w.height, (a + b)[k].cell) && (a + b)[k].ch == WallGlyph
    {
      if k >= |a| { assert (a + b)[k] == b[k - |a|]; }
    }
    forall p | Border(w.width, w.height, p) ensures LastWrite(a + b, p) != -1 {
      BorderCovered(w, p);
    }
  }

  lemma BorderCovered(w: World, p: Pos)
    requires 1 <= w.width && 1 <= w.height && Border(w.width, w.height, p)
    ensures LastWrite(BorderWrites(w), p) != -1
  {
    var a: seq<Write> := RowWrites(w.width, w.height, w.width);
    var b: seq<Write> := ColWrites(w.width, w.height, w.height);
    RowWritesShape(w.width, w.height, w.width);
    ColWritesShape(w.width, w.height, w.height);
    LastWriteAppend(a, b, p);
  }

  /** The food stores put '*' on food cells only, and on every one. */
  lemma {:induction false} FoodWritesShape(food: seq<Pos>)
    decreases |food|
    ensures (forall k :: 0 <= k < |FoodWrites(food)| ==> FoodWrites(food)[k].cell in food && FoodWrites(food)[k].ch == FoodGlyph)
    ensures (forall p :: p in food ==> LastWrite(FoodWrites(food), p) != -1)
  {
    if food != [] {
      var n := |food| - 1;
      FoodWritesShape(food[..n]);
      var a: seq<Write> := FoodWrites(food[..n]);
      var b: seq<Write> := [Write(food[n], FoodGlyph)];
      forall k | 0 <= k < |a + b| ensures (a + b)[k].cell in food && (a + b)[k].ch == FoodGlyph {
        if k < |a| {
          assert a[k].cell in food[..n];
        }
      }
      forall p | p in food ensures LastWrite(a + b, p) != -1 {
        LastWriteAppend(a, b, p);
        if p != food[n] {
          assert p in food[..n] by {
            var i :| 0 <= i < |food| && food[i] == p;
            assert food[..n][i] == p;
          }
        }
      }
    }
  }

  lemma {:induction false} CellWritesShape(cells: seq<Pos>, lo: nat, hi: nat, ch: char)
    requires lo <= hi <= |cells|
    decreases hi
    ensures forall k :: 0 <= k < |CellWrites(cells, lo, hi, ch)| ==>
              CellWrites(cells, lo, hi, ch)[k].ch == ch &&
              CellWrites(cells, lo, hi, ch)[k].cell in cells[lo..hi]
  {
    if lo < hi {
      CellWritesShape(cells, lo, hi - 1, ch);
      var a: seq<Write> := CellWrites(cells, lo, hi - 1, ch);
      var b: seq<Write> := [Write(cells[hi - 1], ch)];
      forall k | 0 <= k < |a + b|
        ensures (a + b)[k].ch == ch && (a + b)[k].cell in cells[lo..hi]
      {
        if k == |a| {
          assert (a + b)[k].cell == cells[lo..hi][hi - 1 - lo];
        } else {
          assert (a + b)[k] == a[k];
          var i :| 0 <= i < hi - 1 - lo && cells[lo..hi - 1][i] == a[k].cell;
          assert cells[lo..hi][i] == a[k].cell;
        }
      }
    }
  }

  /** A cell holding a segment of some joined snake. */
  ghost predicate SnakeCell(players: seq<Player>, p: Pos) {
    exists s, j :: Segment(players, s, j, p)
  }

  lemma SnakeWritesShape(players: seq<Player>, s: nat)
    requires s < |players| && PlayerShape(players[s])
    ensures forall k :: 0 <= k < |SnakeWrites(s, players[s])| ==> SnakeCell(players, SnakeWrites(s, players[s])[k].cell)
  {
    var pl := players[s];
    var ws := SnakeWrites(s, pl);
    if pl.joined {
      forall k | 0 <= k < |ws| ensures SnakeCell(players, ws[k].cell) {
        var c := ws[k].cell;
        if !pl.alive && pl.len > 0 {
          CellWritesShape(pl.cells, 0, pl.len, CorpseGlyph);
          var i :| 0 <= i < pl.len && pl.cells[0..pl.len][i] == c;
          assert Segment(players, s, i, c);
        } else if k < |HeadWrite(s, pl)| {
          assert Segment(players, s, 0, c);
        } else {
          CellWritesShape(pl.cells, 1, pl.len, BodyChar(s));
          var hw := HeadWrite(s, pl);
          var cw := CellWrites(pl.cells, 1, pl.len, BodyChar(s));
          assert ws[k] == cw[k - |hw|];
          var i :| 0 <= i < pl.len - 1 && pl.cells[1..pl.len][i] == c;
          assert Segment(players, s, i + 1, c);
        }
      }
    }
  }

  /** Every snake store lies on a segment of a joined snake. */
  lemma {:induction false} PlayerWritesShape(players: seq<Player>, n: nat)
    requires n <= |players| && forall s :: 0 <= s < |players| ==> PlayerShape(players[s])
    decreases n
    ensures forall k :: 0 <= k < |PlayerWrites(players, n)| ==> SnakeCell(players, PlayerWrites(players, n)[k].cell)
  {
    if n > 0 {
      PlayerWritesShape(players, n - 1);
      SnakeWritesShape(players, n - 1);
      var a: seq<Write> := PlayerWrites(players, n - 1);
      var b: seq<Write> := SnakeWrites(n - 1, players[n - 1]);
      forall k | 0 <= k < |a + b| ensures SnakeCell(players, (a + b)[k].cell) {
        if k < |a| {
          assert (a + b)[k] == a[k];
        } else {
          assert (a + b)[k] == b[k - |a|];
        }
      }
    }
  }

  lemma AllOnGridAppend(width: U8, height: U8, a: seq<Write>, b: seq<Write>)
    requires AllOnGrid(width, height, a) && AllOnGrid(width, height, b)
    ensures AllOnGrid(width, height, a + b)
  {
    forall k | 0 <= k < |a + b| ensures OnGrid(width, height, (a + b)[k].cell) {
      if k < |a| { assert (a + b)[k] == a[k]; } else { assert (a + b)[k] == b[k - |a|]; }
    }
  }

  /** Food cells are inside the border, so off every border cell. */
  lemma FoodOnGrid(w: World)
    requires WorldOk(w)
    ensures AllOnGrid(w.width, w.height, FoodWrites(w.food))
    ensures forall p :: Border(w.width, w.height, p) ==> LastWrite(FoodWrites(w.food), p) == -1
  {
    var f := FoodWrites(w.food);
    FoodWritesShape(w.food);
    forall k | 0 <= k < |f| ensures Interior(w.width, w.height, f[k].cell) {
      var i :| 0 <= i < |w.food| && w.food[i] == f[k].cell;
    }
  }

  /** Snake segments are inside the border or on the corner (0,0). */
  lemma PlayersOnGrid(w: World)
    requires WorldOk(w)
    ensures AllOnGrid(w.width, w.height, PlayerWrites(w.players, MaxPlayers))
    ensures forall k :: 0 <= k < |PlayerWrites(w.players, MaxPlayers)| ==>
              OnBoard(w.width, w.height, PlayerWrites(w.players, MaxPlayers)[k].cell)
  {
    var q := PlayerWrites(w.players, MaxPlayers);
    PlayerWritesShape(w.players, MaxPlayers);
    forall k | 0 <= k < |q| ensures OnBoard(w.width, w.height, q[k].cell) {
      var s, j :| Segment(w.players, s, j, q[k].cell);
      assert PlayerOk(w.width, w.height, w.players[s]);
    }
  }

  /** Under the engine invariant every store of a rendering is on the
      grid, so game_build_ascii_map never writes outside the board area
      of its output buffer. */
  lemma RenderOnGrid(w: World)
    requires WorldOk(w)
    ensures AllOnGrid(w.width, w.height, Writes(w))
    ensures w.width * w.height <= StateMaxCells
  {
    BorderWritesShape(w);
    FoodOnGrid(w);
    PlayersOnGrid(w);
    AllOnGridAppend(w.width, w.height, BorderWrites(w), FoodWrites(w.food));
    AllOnGridAppend(w.width, w.height, BorderWrites(w) + FoodWrites(w.food), PlayerWrites(w.players, MaxPlayers));
    BoardFits(w.width, w.height);
  }

  lemma BoardFits(width: U8, height: U8)
    requires width <= StateMaxWidth && height <= StateMaxHeight
    ensures width * height <= StateMaxCells
  {
    assert width * height <= StateMaxWidth * height;
  }

  // ---------------------------------------------------------------------
  // The rendering rules

  /** An index past the board area is aimed at by no on-grid store. */
  lemma ApplyOffGrid(grid: seq<char>, width: U8, height: U8, ws: seq<Write>, i: int)
    requires AllOnGrid(width, height, ws) && width * height <= i < |grid|
    ensures Apply(grid, width, ws)[i] == grid[i]
  {
    forall k | 0 <= k < |ws| ensures At(width, ws[k].cell) != i {
      AtBounds(width, height, ws[k].cell);
    }
    ApplyUntouched(grid, width, ws, i);
  }

  /** Stores in three consecutive groups: the last group that aims at `p`
      decides the cell. */
  lemma ApplyGroups(grid: seq<char>, width: U8, height: U8, b: seq<Write>, f: seq<Write>, q: seq<Write>, p: Pos)
    requires width * height <= |grid| && AllOnGrid(width, height, b + f + q) && OnGrid(width, height, p)
    ensures 0 <= At(width, p) < |grid|
    ensures Apply(grid, width, b + f + q)[At(width, p)] ==
              if LastWrite(q, p) != -1 then q[LastWrite(q, p)].ch
              else if LastWrite(f, p) != -1 then f[LastWrite(f, p)].ch
              else if LastWrite(b, p) != -1 then b[LastWrite(b, p)].ch
              else grid[At(width, p)]
  {
    LastWriteAppend(b, f, p);
    LastWriteAppend(b + f, q, p);
    ApplyLast(grid, width, height, b + f + q, p);
  }

  lemma OffGridBlank(width: U8, height: U8, ws: seq<Write>, i: int)
    requires AllOnGrid(width, height, ws) && width * height <= i < StateMaxCells
    ensures Apply(BlankGrid(), width, ws)[i] == BlankGlyph
  {
    ApplyOffGrid(BlankGrid(), width, height, ws, i);
  }

  /** Grid cells past the board area stay blank. */
  lemma RenderOffBoard(w: World, i: int)
    requires WorldOk(w) && w.width * w.height <= i < StateMaxCells
    ensures Render(w)[i] == BlankGlyph
  {
    RenderOnGrid(w);
    OffGridBlank(w.width, w.height, Writes(w), i);
  }

  /** The layering of the picture: a board cell shows the glyph of the
      last snake store on it if there is one, else '*' if it is food, else
      '#' if it is on the border, else a space. */
  lemma RenderLayers(w: World, p: Pos)
    requires WorldOk(w) && OnGrid(w.width, w.height, p)
    ensures 0 <= At(w.width, p) < StateMaxCells
    ensures Render(w)[At(w.width, p)] ==
        if LastWrite(PlayerWrites(w.players, MaxPlayers), p) != -1
        then PlayerWrites(w.players, MaxPlayers)[LastWrite(PlayerWrites(w.players, MaxPlayers), p)].ch
        else if p in w.food then FoodGlyph
        else if Border(w.width, w.height, p) then WallGlyph
        else BlankGlyph
  {
    var b := BorderWrites(w);
    var f := FoodWrites(w.food);
    var q := PlayerWrites(w.players, MaxPlayers);
    RenderOnGrid(w);
    BorderWritesShape(w);
    FoodWritesShape(w.food);
    ApplyGroups(BlankGrid(), w.width, w.height, b, f, q, p);
  }

  /** A cell without a segment of a joined snake receives no snake store. */
  lemma NoSnakeStore(w: World, p: Pos)
    requires ShapeOk(w) && !SnakeCell(w.players, p)
    ensures LastWrite(PlayerWrites(w.players, MaxPlayers), p) == -1
  {
    PlayerWritesShape(w.players, MaxPlayers);
  }

  /** Every border cell shows '#', except that the corner (0,0) is
      overwritten by a corpse or snake glyph when a joined snake has a
      segment there (the untouched body buffer of a failed join is all
      (0,0)). */
  lemma RenderBorder(w: World, p: Pos)
    requires WorldOk(w) && Border(w.width, w.height, p)
    requires p != Pos(0, 0) || !SnakeCell(w.players, p)
    ensures 0 <= At(w.width, p) < StateMaxCells
    ensures Render(w)[At(w.width, p)] == WallGlyph
  {
    RenderLayers(w, p);
    assert !Interior(w.width, w.height, p);
    if p != Pos(0, 0) {
      assert !OnBoard(w.width, w.height, p);
    }
    NoSnakeStore(w, p);
  }

  /** A food cell on which no joined snake has a segment shows '*'. */
  lemma RenderFood(w: World, p: Pos)
    requires WorldOk(w) && p in w.food && !SnakeCell(w.players, p)
    ensures 0 <= At(w.width, p) < StateMaxCells
    ensures Render(w)[At(w.width, p)] == FoodGlyph
  {
    var i :| 0 <= i < |w.food| && w.food[i] == p;
    assert Interior(w.width, w.height, w.food[i]);
    RenderLayers(w, p);
    NoSnakeStore(w, p);
  }

  /** An interior cell that is neither food nor a segment of a joined
      snake shows a space. */
  lemma RenderEmpty(w: World, p: Pos)
    requires WorldOk(w) && Interior(w.width, w.height, p) && p !in w.food && !SnakeCell(w.players, p)
    ensures 0 <= At(w.width, p) < StateMaxCells
    ensures Render(w)[At(w.width, p)] == BlankGlyph
  {
    RenderLayers(w, p);
    NoSnakeStore(w, p);
  }
}
