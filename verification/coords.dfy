/**
 * Tile and chunk geometry: a chunk is a 96 x 96 square of small hex tiles,
 * found by floor division; its outline is a closed five-point ring; a
 * watchtower covers the block of chunks around its own chunk.
 */
module Coords {
  import opened Order

  const ChunkSize: int := 96

  datatype Chunk = Chunk(cx: int, cy: int)
  datatype Point = Point(x: int, y: int)

  /** Sort key for a chunk: the tuple `(cx, cy)`. */
  function ChunkKey(c: Chunk): seq<int> {
    [c.cx, c.cy]
  }

  /** `(a.cx, a.cy) < (b.cx, b.cy)` as Python compares tuples. */
  predicate ChunkLess(a: Chunk, b: Chunk) {
    a.cx < b.cx || (a.cx == b.cx && a.cy < b.cy)
  }

  lemma ChunkKeyOrder(a: Chunk, b: Chunk)
    ensures LexLe(ChunkKey(a), ChunkKey(b)) <==> ChunkLess(a, b) || a == b
    ensures ChunkKey(a) == ChunkKey(b) ==> a == b
  {
    assert ChunkKey(a)[1..] == [a.cx, a.cy][1..] == [a.cy];
    assert ChunkKey(b)[1..] == [b.cy];
    assert LexLe([a.cy], [b.cy]) <==> a.cy <= b.cy by {
      assert [a.cy][1..] == [] && LexLe([], [b.cy][1..]);
    }
  }

  /** The chunk holding tile `(x, y)`. */
  function SmallhexToChunk(x: int, y: int): (c: Chunk)
    ensures ChunkSize * c.cx <= x < ChunkSize * (c.cx + 1)
    ensures ChunkSize * c.cy <= y < ChunkSize * (c.cy + 1)
  {
    Chunk(x / ChunkSize, y / ChunkSize)
  }

  /** The edge vectors of a chunk outline, walked from its low corner. */
  const EdgeDx: seq<int> := [ChunkSize, 0, -ChunkSize, 0]
  const EdgeDy: seq<int> := [0, ChunkSize, 0, -ChunkSize]

  /** The outline of a chunk: its four corners and the first one again. */
  function ChunkBounds(c: Chunk): (ring: seq<Point>)
    ensures |ring| == 5 && ring[0] == ring[4]
    ensures ring[0] == Point(ChunkSize * c.cx, ChunkSize * c.cy)
    ensures forall i :: 0 <= i < 4 ==>
      ring[i + 1].x - ring[i].x == EdgeDx[i] && ring[i + 1].y - ring[i].y == EdgeDy[i]
  {
    var x0 := c.cx * ChunkSize;
    var y0 := c.cy * ChunkSize;
    var x1 := (c.cx + 1) * ChunkSize;
    var y1 := (c.cy + 1) * ChunkSize;
    [Point(x0, y0), Point(x1, y0), Point(x1, y1), Point(x0, y1), Point(x0, y0)]
  }

  /** Tile `(x, y)` lies in the half-open square a ring of `ChunkBounds` encloses. */
  predicate InSquare(x: int, y: int, ring: seq<Point>)
    requires |ring| == 5
  {
    ring[0].x <= x < ring[2].x && ring[0].y <= y < ring[2].y
  }

  /** A tile lies in the square of exactly one chunk: the one `SmallhexToChunk` gives. */
  lemma TileInOwnChunk(x: int, y: int, c: Chunk)
    ensures InSquare(x, y, ChunkBounds(c)) <==> c == SmallhexToChunk(x, y)
  {
    var d := SmallhexToChunk(x, y);
    if InSquare(x, y, ChunkBounds(c)) {
      assert ChunkSize * c.cx <= x < ChunkSize * c.cx + ChunkSize;
      assert ChunkSize * d.cx <= x < ChunkSize * d.cx + ChunkSize;
      assert c.cx == d.cx;
      assert c.cy == d.cy;
    }
  }

  /** GeoJSON polygon coordinates: a single ring of `[x, y]` pairs. */
  function CoordsToFeaturePolygon(coords: seq<Point>): (poly: seq<seq<seq<int>>>)
    ensures |poly| == 1 && |poly[0]| == |coords|
    ensures forall i :: 0 <= i < |coords| ==> |poly[0][i]| == 2
  {
    [seq(|coords|, i requires 0 <= i < |coords| => [coords[i].x, coords[i].y])]
  }

  /** Reads the points back out of a one-ring polygon. */
  function RingPoints(poly: seq<seq<seq<int>>>): seq<Point>
    requires |poly| == 1 && forall i :: 0 <= i < |poly[0]| ==> |poly[0][i]| == 2
  {
    seq(|poly[0]|, i requires 0 <= i < |poly[0]| => Point(poly[0][i][0], poly[0][i][1]))
  }

  /** The polygon keeps every point of the ring, in order. */
  lemma PolygonKeepsRing(coords: seq<Point>)
    ensures RingPoints(CoordsToFeaturePolygon(coords)) == coords
  {
  }

  /** Chebyshev distance between two chunks. */
  function ChunkDistance(a: Chunk, b: Chunk): nat {
    var dx := if a.cx >= b.cx then a.cx - b.cx else b.cx - a.cx;
    var dy := if a.cy >= b.cy then a.cy - b.cy else b.cy - a.cy;
    if dx >= dy then dx else dy
  }

  /** Number of offsets in `range(-r, r + 1)`. */
  function Side(r: int): nat {
    if r >= 0 then 2 * r + 1 else 0
  }

  /** Chunks `(c.cx + dx, c.cy + dy + k)` for `k` in `0 .. n - 1`. */
  function Column(c: Chunk, dx: int, dy: int, n: nat): (s: seq<Chunk>)
    ensures |s| == n
    decreases n
  {
    if n == 0 then [] else [Chunk(c.cx + dx, c.cy + dy)] + Column(c, dx, dy + 1, n - 1)
  }

  lemma {:induction false} ColumnShape(c: Chunk, dx: int, dy: int, n: nat)
    ensures var s := Column(c, dx, dy, n);
      && (forall k :: k in s <==> k.cx == c.cx + dx && dy <= k.cy - c.cy < dy + n)
      && (forall i, j :: 0 <= i < j < |s| ==> s[i].cx == s[j].cx && s[i].cy < s[j].cy)
    decreases n
  {
    if n > 0 {
      ColumnShape(c, dx, dy + 1, n - 1);
    }
  }

  /** For each `dx` in `dx0 .. dx0 + n - 1`, the column of `dy` in `-r .. r`. */
  function Rows(c: Chunk, dx0: int, n: nat, r: int): (s: seq<Chunk>)
    ensures |s| == n * Side(r)
    decreases n
  {
    if n == 0 then []
    else
      var rest := Rows(c, dx0 + 1, n - 1, r);
      assert (n - 1) * Side(r) + Side(r) == n * Side(r);
      Column(c, dx0, -r, Side(r)) + rest
  }

  lemma {:induction false} ColumnAt(c: Chunk, dx: int, dy: int, n: nat)
    ensures forall i :: 0 <= i < n ==> Column(c, dx, dy, n)[i] == Chunk(c.cx + dx, c.cy + dy + i)
    decreases n
  {
    if n > 0 {
      ColumnAt(c, dx, dy + 1, n - 1);
    }
  }

  lemma {:induction false} RowsFrom(c: Chunk, dx0: int, n: nat, r: int)
    ensures forall j :: 0 <= j < |Rows(c, dx0, n, r)| ==> Rows(c, dx0, n, r)[j].cx >= c.cx + dx0
    decreases n
  {
    if n > 0 {
      RowsFrom(c, dx0 + 1, n - 1, r);
      ColumnAt(c, dx0, -r, Side(r));
    }
  }

  lemma {:induction false} RowsMembers(c: Chunk, dx0: int, n: nat, r: int)
    ensures forall k :: k in Rows(c, dx0, n, r) <==>
      dx0 <= k.cx - c.cx < dx0 + n && Side(r) > 0 && -r <= k.cy - c.cy <= r
    decreases n
  {
    if n > 0 {
      RowsMembers(c, dx0 + 1, n - 1, r);
      ColumnShape(c, dx0, -r, Side(r));
    }
  }

  lemma {:induction false} RowsIncreasing(c: Chunk, dx0: int, n: nat, r: int)
    ensures forall i, j :: 0 <= i < j < |Rows(c, dx0, n, r)| ==>
      ChunkLess(Rows(c, dx0, n, r)[i], Rows(c, dx0, n, r)[j])
    decreases n
  {
    if n > 0 {
      var s := Rows(c, dx0, n, r);
      var col := Column(c, dx0, -r, Side(r));
      var rest := Rows(c, dx0 + 1, n - 1, r);
      var m := |col|;
      assert s == col + rest;
      RowsIncreasing(c, dx0 + 1, n - 1, r);
      RowsFrom(c, dx0 + 1, n - 1, r);
      ColumnAt(c, dx0, -r, Side(r));
      forall i, j | 0 <= i < j < |s|
        ensures ChunkLess(s[i], s[j])
      {
        if j < m {
          assert s[i] == col[i] && s[j] == col[j];
        } else if i >= m {
          assert s[i] == rest[i - m] && s[j] == rest[j - m];
        } else {
          assert s[i] == col[i] && s[j] == rest[j - m];
        }
      }
    }
  }

  /** The chunks a watchtower at tile `(x, y)` covers: `dx` outer, `dy` inner,
      both over `range(-radius, radius + 1)`. */
  function TowerCoveredChunks(x: int, y: int, radius: int): (s: seq<Chunk>)
    ensures |s| == Side(radius) * Side(radius)
  {
    Rows(SmallhexToChunk(x, y), -radius, Side(radius), radius)
  }

  /** Exactly the chunks within Chebyshev distance `radius` of the tower's own
      chunk, in increasing `(cx, cy)` order, which is `dx` ascending outside and
      `dy` ascending inside. */
  lemma TowerCoverage(x: int, y: int, radius: int)
    ensures var s := TowerCoveredChunks(x, y, radius);
      && (forall k :: k in s <==> radius >= 0 && ChunkDistance(k, SmallhexToChunk(x, y)) <= radius)
      && (forall i, j :: 0 <= i < j < |s| ==> ChunkLess(s[i], s[j]))
  {
    RowsMembers(SmallhexToChunk(x, y), -radius, Side(radius), radius);
    RowsIncreasing(SmallhexToChunk(x, y), -radius, Side(radius), radius);
  }

  /** The default radius 2 gives 25 pairwise distinct chunks, the tower's own among them. */
  lemma WatchtowerBlock(x: int, y: int)
    ensures |TowerCoveredChunks(x, y, 2)| == 25
    ensures Distinct(TowerCoveredChunks(x, y, 2))
    ensures SmallhexToChunk(x, y) in TowerCoveredChunks(x, y, 2)
  {
    TowerCoverage(x, y, 2);
  }
}
