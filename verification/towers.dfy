/**
 * The per-empire tower loop: which tower records count, and the chunks the
 * accepted ones cover.
 */
module Towers {
  import opened Optional
  import opened Json
  import opened Coords
  import opened BoundedScan

  /** An empire as the pipeline keys it: integer id and display name. */
  datatype Owner = Owner(id: int, name: string)

  /** Largest accepted tile coordinate; the smallest accepted one is just above 0. */
  const MaxLocation: real := 23040.0
  const WatchtowerRadius: int := 2

  /** `not tower.get("active", True)` is false: the flag is absent or truthy. */
  predicate IsActive(t: Value)
    requires t.JObj?
  {
    "active" !in t.fields || Truthy(t.fields["active"])
  }

  /** A coordinate field that is present, not `null`, and comparable with numbers. */
  function Location(t: Value, key: string): (r: Option<real>)
    requires t.JObj?
    ensures r.Some? ==> HasNonNull(t, key) && Numeric(t.fields[key]) == r
  {
    if HasNonNull(t, key) then Numeric(t.fields[key]) else None
  }

  predicate InBounds(a: real) {
    0.0 < a <= MaxLocation
  }

  /** What the loop does with one tower record (`locationZ` is the map's y axis). */
  function TowerVerdict(t: Value): (v: Verdict<Point>)
    ensures v.Raise? <==> !t.JObj?
    ensures v.Keep? <==> (t.JObj? && IsActive(t)
      && Location(t, "locationX").Some? && InBounds(Location(t, "locationX").value)
      && Location(t, "locationZ").Some? && InBounds(Location(t, "locationZ").value))
    ensures v.Keep? ==> v.value == Point(Trunc(Location(t, "locationX").value), Trunc(Location(t, "locationZ").value))
    ensures v.Keep? ==> 0 <= v.value.x <= 23040 && 0 <= v.value.y <= 23040
  {
    if !t.JObj? then Raise
    else if "active" in t.fields && !Truthy(t.fields["active"]) then Skip
    else if !HasNonNull(t, "locationX") || !HasNonNull(t, "locationZ") then Skip
    else
      match (Numeric(t.fields["locationX"]), Numeric(t.fields["locationZ"]))
      case (Some(x), Some(y)) =>
        if x <= 0.0 || y <= 0.0 || x > MaxLocation || y > MaxLocation then Skip
        else Keep(Point(Trunc(x), Trunc(y)))
      case _ => Skip
  }

  /** The two boundary cases: a coordinate of 0 is refused, one of 23040 accepted. */
  lemma LocationBoundaries(y: real)
    requires InBounds(y)
    ensures TowerVerdict(JObj(map["locationX" := JNum(0.0), "locationZ" := JNum(y)])).Skip?
    ensures TowerVerdict(JObj(map["locationX" := JNum(MaxLocation), "locationZ" := JNum(y)]))
      == Keep(Point(23040, Trunc(y)))
  {
  }

  /** An accepted tower's own chunk lies in `[0, 240]` on both axes. */
  lemma AcceptedTowerChunkInRange(t: Value)
    requires TowerVerdict(t).Keep?
    ensures var p := TowerVerdict(t).value;
      0 <= SmallhexToChunk(p.x, p.y).cx <= 240 && 0 <= SmallhexToChunk(p.x, p.y).cy <= 240
  {
  }

  /** Chunk `k` is within Chebyshev distance 2 of the chunk of tile `p`. */
  predicate Covers(p: Point, k: Chunk) {
    ChunkDistance(k, SmallhexToChunk(p.x, p.y)) <= WatchtowerRadius
  }

  /** The 5 x 5 block of one accepted tower. */
  function Block(p: Point): (s: seq<Chunk>)
    ensures |s| == 25
  {
    TowerCoveredChunks(p.x, p.y, WatchtowerRadius)
  }

  lemma BlockMembers(p: Point, k: Chunk)
    ensures k in Block(p) <==> Covers(p, k)
  {
    TowerCoverage(p.x, p.y, WatchtowerRadius);
  }

  /** The chunk blocks of the accepted towers, concatenated in tower order. */
  function Blocks(tiles: seq<Point>): (cs: seq<Chunk>)
    ensures |cs| == 25 * |tiles|
  {
    if tiles == [] then [] else Blocks(tiles[..|tiles| - 1]) + Block(tiles[|tiles| - 1])
  }

  /** Tower `i`'s block sits at positions `25 * i .. 25 * i + 24`. */
  lemma {:induction false} BlocksLayout(tiles: seq<Point>, i: nat)
    requires i < |tiles|
    ensures Blocks(tiles)[25 * i..25 * i + 25] == Block(tiles[i])
  {
    var n := |tiles| - 1;
    var front := Blocks(tiles[..n]);
    if i < n {
      BlocksLayout(tiles[..n], i);
      assert Blocks(tiles)[25 * i..25 * i + 25] == front[25 * i..25 * i + 25];
    } else {
      assert Blocks(tiles)[25 * i..25 * i + 25] == Block(tiles[n]);
    }
  }

  /** A chunk is covered iff it is within Chebyshev distance 2 of some accepted tower's chunk. */
  lemma {:induction false} BlocksCover(tiles: seq<Point>, k: Chunk)
    ensures k in Blocks(tiles) <==> exists i :: 0 <= i < |tiles| && Covers(tiles[i], k)
  {
    if tiles != [] {
      var n := |tiles| - 1;
      var front := tiles[..n];
      BlocksCover(front, k);
      assert Blocks(tiles) == Blocks(front) + Block(tiles[n]);
      BlockMembers(tiles[n], k);
      assert k in Blocks(tiles) <==> k in Blocks(front) || Covers(tiles[n], k);
      if exists i :: 0 <= i < |tiles| && Covers(tiles[i], k) {
        var i :| 0 <= i < |tiles| && Covers(tiles[i], k);
        if i < n {
          assert front[i] == tiles[i];
        }
      }
      if exists i :: 0 <= i < n && Covers(front[i], k) {
        var i :| 0 <= i < n && Covers(front[i], k);
        assert tiles[i] == front[i];
      }
    }
  }

  /** What `fetch_emp` hands back when it does not raise. */
  datatype EmpireResult = EmpireResult(owner: Owner, chunks: seq<Chunk>, towersHandled: nat)

  /** The tower loop of `fetch_emp` over the payload of the towers endpoint
      (`[]` when the request failed).  `None` is an uncaught exception: the
      collector drops that empire. */
  method FetchEmp(owner: Owner, towers: Value, maxTowersPerEmpire: int) returns (r: Option<EmpireResult>)
    ensures var accepted := ScanResult(Walk(towers, TowerVerdict), maxTowersPerEmpire);
      && (r.None? <==> accepted.None?)
      && (r.Some? ==> (r.value.owner == owner
           && r.value.towersHandled == |accepted.value|
           && r.value.chunks == Blocks(accepted.value)))
    ensures r.Some? ==> |r.value.chunks| == 25 * r.value.towersHandled
    ensures r.Some? && maxTowersPerEmpire > 0 ==> r.value.towersHandled <= maxTowersPerEmpire
  {
    var accepted := Scan(Walk(towers, TowerVerdict), maxTowersPerEmpire);
    match accepted {
      case None =>
        r := None;
      case Some(tiles) =>
        r := Some(EmpireResult(owner, Blocks(tiles), |tiles|));
    }
  }

  /** An inactive tower contributes no chunk, wherever it stands. */
  lemma InactiveTowerIgnored(t: Value)
    requires t.JObj? && "active" in t.fields && !Truthy(t.fields["active"])
    ensures TowerVerdict(t) == Skip
  {
  }
}
