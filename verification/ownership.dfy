/**
 * The chunk-ownership map: folding every empire's covered chunks into
 * chunk -> set of owners, and splitting that map into single-owner buckets
 * and a contested bucket.
 */
module Ownership {
  import opened Optional
  import opened Order
  import opened Coords
  import opened Towers

  type ChunkMap = map<Chunk, set<Owner>>

  /** Adds `o` to the owner set of every chunk in `cs`. */
  function AddOwner(m: ChunkMap, o: Owner, cs: seq<Chunk>): (m': ChunkMap)
    ensures forall c :: c in m' <==> c in m || c in cs
    ensures forall c :: c in m' ==>
      m'[c] == (if c in m then m[c] else {}) + (if c in cs then {o} else {})
  {
    if cs == [] then m
    else
      var front := AddOwner(m, o, cs[..|cs| - 1]);
      var c := cs[|cs| - 1];
      assert cs == cs[..|cs| - 1] + [c];
      front[c := (if c in front then front[c] else {}) + {o}]
  }

  /** Some collected result of owner `o` covers chunk `c`. */
  predicate Claims(results: seq<EmpireResult>, o: Owner, c: Chunk) {
    exists i :: 0 <= i < |results| && results[i].owner == o && c in results[i].chunks
  }

  /** The aggregation loop: every result adds its owner to each chunk it covers. */
  function Aggregate(results: seq<EmpireResult>): ChunkMap {
    if results == [] then map[]
    else
      var n := |results| - 1;
      AddOwner(Aggregate(results[..n]), results[n].owner, results[n].chunks)
  }

  /** An owner is recorded for a chunk exactly when one of its results covers
      the chunk, and no chunk is recorded without an owner. */
  lemma {:induction false} AggregateOwners(results: seq<EmpireResult>)
    ensures forall c, o :: c in Aggregate(results) && o in Aggregate(results)[c] <==> Claims(results, o, c)
    ensures forall c :: c in Aggregate(results) ==> Aggregate(results)[c] != {}
  {
    if results != [] {
      var n := |results| - 1;
      AggregateOwners(results[..n]);
      forall c, o
        ensures Claims(results, o, c) <==>
          Claims(results[..n], o, c) || (o == results[n].owner && c in results[n].chunks)
      {
        if Claims(results, o, c) {
          var i :| 0 <= i < |results| && results[i].owner == o && c in results[i].chunks;
          if i < n { assert results[..n][i] == results[i]; }
        }
        if Claims(results[..n], o, c) {
          var i :| 0 <= i < n && results[..n][i].owner == o && c in results[..n][i].chunks;
          assert results[i] == results[..n][i];
        }
      }
    }
  }

  lemma OwnerIffClaims(results: seq<EmpireResult>, o: Owner, c: Chunk)
    ensures c in Aggregate(results) && o in Aggregate(results)[c] <==> Claims(results, o, c)
  {
    AggregateOwners(results);
  }

  /** A chunk is a key exactly when some result covers it. */
  lemma AggregateKeys(results: seq<EmpireResult>, c: Chunk)
    ensures c in Aggregate(results) <==> exists i :: 0 <= i < |results| && c in results[i].chunks
  {
    var m := Aggregate(results);
    AggregateOwners(results);
    if exists i :: 0 <= i < |results| && c in results[i].chunks {
      var i :| 0 <= i < |results| && c in results[i].chunks;
      assert Claims(results, results[i].owner, c);
    }
    if c in m {
      var o :| o in m[c];
      assert Claims(results, o, c);
    }
  }

  /** The map does not depend on the order the workers finished in. */
  lemma AggregateOrderFree(r1: seq<EmpireResult>, r2: seq<EmpireResult>)
    requires forall r :: r in r1 <==> r in r2
    ensures Aggregate(r1) == Aggregate(r2)
  {
    var m1 := Aggregate(r1);
    var m2 := Aggregate(r2);
    AggregateOwners(r1);
    AggregateOwners(r2);
    forall c, o
      ensures (c in m1 && o in m1[c]) <==> (c in m2 && o in m2[c])
    {
      ClaimsFollowMembers(r1, r2, o, c);
      ClaimsFollowMembers(r2, r1, o, c);
    }
    SameMembershipSameMap(m1, m2);
  }

  /** Maps without empty owner sets are equal when they agree on who owns what. */
  lemma SameMembershipSameMap(m1: ChunkMap, m2: ChunkMap)
    requires forall c :: c in m1 ==> m1[c] != {}
    requires forall c :: c in m2 ==> m2[c] != {}
    requires forall c, o :: (c in m1 && o in m1[c]) <==> (c in m2 && o in m2[c])
    ensures m1 == m2
  {
    forall c | c in m1
      ensures c in m2 && m1[c] == m2[c]
    {
      var o :| o in m1[c];
      assert c in m2;
      assert forall o' :: o' in m1[c] <==> o' in m2[c];
    }
    forall c | c in m2
      ensures c in m1
    {
      var o :| o in m2[c];
    }
  }

  lemma ClaimsFollowMembers(r1: seq<EmpireResult>, r2: seq<EmpireResult>, o: Owner, c: Chunk)
    requires forall r :: r in r1 ==> r in r2
    ensures Claims(r1, o, c) ==> Claims(r2, o, c)
  {
    if Claims(r1, o, c) {
      var i :| 0 <= i < |r1| && r1[i].owner == o && c in r1[i].chunks;
      assert r1[i] in r2;
      var j :| 0 <= j < |r2| && r2[j] == r1[i];
    }
  }

  /** A set holding `a` and `b` and nothing else. */
  lemma ExactlyTwo(s: set<Owner>, a: Owner, b: Owner)
    requires a in s && b in s && a != b
    requires forall o :: o in s ==> o == a || o == b
    ensures s == {a, b} && |s| == 2
  {
  }

  /** When every result belongs to `a` or `b`, nobody else claims anything. */
  lemma ClaimantsAmong(rs: seq<EmpireResult>, a: Owner, b: Owner, o: Owner, c: Chunk)
    requires forall i :: 0 <= i < |rs| ==> rs[i].owner == a || rs[i].owner == b
    ensures Claims(rs, o, c) ==> o == a || o == b
  {
  }

  /** Two empires with towers at the same places contest every chunk of those
      blocks, whatever else the other results of the same two empires cover. */
  lemma SharedBlockIsContested(rs: seq<EmpireResult>, c: Chunk)
    requires |rs| >= 2 && rs[0].chunks == rs[1].chunks && rs[0].owner != rs[1].owner
    requires forall i :: 0 <= i < |rs| ==> rs[i].owner == rs[0].owner || rs[i].owner == rs[1].owner
    requires c in rs[0].chunks
    ensures c in Aggregate(rs) && Aggregate(rs)[c] == {rs[0].owner, rs[1].owner}
    ensures |Aggregate(rs)[c]| == 2
  {
    var a, b := rs[0].owner, rs[1].owner;
    assert Claims(rs, a, c) && Claims(rs, b, c);
    OwnerIffClaims(rs, a, c);
    OwnerIffClaims(rs, b, c);
    var owners := Aggregate(rs)[c];
    forall o | o in owners
      ensures o == a || o == b
    {
      OwnerIffClaims(rs, o, c);
      ClaimantsAmong(rs, a, b, o, c);
    }
    ExactlyTwo(owners, a, b);
  }

  /** The results of the workers that did not raise, in completion order. */
  function Collected(outcomes: seq<Option<EmpireResult>>): (rs: seq<EmpireResult>)
    ensures forall r :: r in rs <==> Some(r) in outcomes
  {
    if outcomes == [] then []
    else
      var n := |outcomes| - 1;
      assert outcomes == outcomes[..n] + [outcomes[n]];
      Collected(outcomes[..n]) + (if outcomes[n].Some? then [outcomes[n].value] else [])
  }

  /** The single-owner chunk lists and the contested chunk list. A chunk stands
      for its polygon `ChunkBounds(c)`. */
  datatype Buckets = Buckets(owned: map<Owner, seq<Chunk>>, contested: seq<Chunk>)

  predicate Increasing(cs: seq<Chunk>) {
    forall i, j :: 0 <= i < j < |cs| ==> ChunkLess(cs[i], cs[j])
  }

  /** The one element of a singleton set. */
  function TheOwner(s: set<Owner>): (o: Owner)
    requires |s| == 1
    ensures s == {o}
  {
    var o :| o in s;
    assert s == {o} by {
      assert |s - {o}| == 0;
    }
    o
  }

  /** The classification loop over the chunks `keys`, taken in increasing order. */
  function Classify(keys: seq<Chunk>, m: ChunkMap): (b: Buckets)
    requires forall i :: 0 <= i < |keys| ==> keys[i] in m
    requires Increasing(keys)
    ensures forall c :: c in b.contested <==> c in keys && |m[c]| > 1
    ensures forall o, c :: o in b.owned && c in b.owned[o] <==> c in keys && m[c] == {o}
    ensures forall o :: o in b.owned ==> b.owned[o] != []
  {
    if keys == [] then Buckets(map[], [])
    else
      var n := |keys| - 1;
      var c := keys[n];
      var b := Classify(keys[..n], m);
      assert forall k :: k in keys <==> k in keys[..n] || k == c by {
        assert keys == keys[..n] + [c];
      }
      if |m[c]| == 1 then
        var o := TheOwner(m[c]);
        var list := if o in b.owned then b.owned[o] else [];
        Buckets(b.owned[o := list + [c]], b.contested)
      else if |m[c]| > 1 then
        Buckets(b.owned, b.contested + [c])
      else b
  }

  /** Each bucket keeps the increasing order of the keys. */
  lemma {:induction false} ClassifyIncreasing(keys: seq<Chunk>, m: ChunkMap)
    requires forall i :: 0 <= i < |keys| ==> keys[i] in m
    requires Increasing(keys)
    ensures Increasing(Classify(keys, m).contested)
    ensures forall o :: o in Classify(keys, m).owned ==> Increasing(Classify(keys, m).owned[o])
  {
    if keys != [] {
      var n := |keys| - 1;
      var c := keys[n];
      var b := Classify(keys[..n], m);
      ClassifyIncreasing(keys[..n], m);
      assert forall k :: k in keys[..n] ==> ChunkLess(k, c);
      forall o | o in b.owned
        ensures forall k :: k in b.owned[o] ==> ChunkLess(k, c)
      {
      }
    }
  }

  lemma SortedChunksIncrease(keys: seq<Chunk>)
    requires SortedBy(keys, ChunkKey) && Distinct(keys)
    ensures Increasing(keys)
  {
    forall i, j | 0 <= i < j < |keys|
      ensures ChunkLess(keys[i], keys[j])
    {
      ChunkKeyOrder(keys[i], keys[j]);
    }
  }

  /** Buckets filled by owner count put each chunk in at most one bucket, and
      a chunk without owners in none. */
  lemma BucketsApart(b: Buckets, m: ChunkMap)
    requires forall c :: c in b.contested ==> c in m && |m[c]| > 1
    requires forall o, c :: o in b.owned && c in b.owned[o] ==> c in m && m[c] == {o}
    ensures forall o, c :: o in b.owned && c in b.owned[o] ==> c !in b.contested
    ensures forall o, o', c :: o in b.owned && o' in b.owned && c in b.owned[o] && c in b.owned[o'] ==> o == o'
    ensures forall c :: c in m && m[c] == {} ==>
      c !in b.contested && forall o :: o in b.owned ==> c !in b.owned[o]
  {
    forall o, o', c | o in b.owned && o' in b.owned && c in b.owned[o] && c in b.owned[o']
      ensures o == o'
    {
      assert m[c] == {o} && m[c] == {o'};
      assert o in {o'};
    }
    forall o, c | o in b.owned && c in b.owned[o]
      ensures c !in b.contested
    {
      assert m[c] == {o};
      assert |m[c]| == 1;
    }
    forall c | c in m && m[c] == {}
      ensures c !in b.contested && forall o :: o in b.owned ==> c !in b.owned[o]
    {
      assert |m[c]| == 0;
    }
  }

  /** `build_owner_and_contested_polys`: a partition of the claimed chunks. */
  method BuildOwnerAndContestedPolys(m: ChunkMap) returns (b: Buckets)
    ensures forall c :: c in b.contested <==> c in m && |m[c]| > 1
    ensures forall o, c :: o in b.owned && c in b.owned[o] <==> c in m && m[c] == {o}
    ensures forall o :: o in b.owned ==> b.owned[o] != []
    ensures forall o, c :: o in b.owned && c in b.owned[o] ==> c !in b.contested
    ensures forall o, o', c :: o in b.owned && o' in b.owned && c in b.owned[o] && c in b.owned[o'] ==> o == o'
    ensures forall c :: c in m && m[c] == {} ==>
      c !in b.contested && forall o :: o in b.owned ==> c !in b.owned[o]
    ensures Increasing(b.contested)
    ensures forall o :: o in b.owned ==> Increasing(b.owned[o])
  {
    var keys := SortedElements(m.Keys, ChunkKey);
    SortedChunksIncrease(keys);
    b := Classify(keys, m);
    ClassifyIncreasing(keys, m);
    BucketsApart(b, m);
  }
}
