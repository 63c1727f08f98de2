/**
 * GeoJSON features: the per-chunk fallback builder, the contested feature, the
 * fixed layer-control marker and the assembled feature collection.
 */
module Features {
  import opened Order
  import opened Coords
  import opened Towers
  import opened Ownership
  import opened PyText

  const DefaultEmpireColor: string := "#FF5500ff"
  const ContestedColor: string := "#2d2d2d"
  const ContestedFillOpacity: real := 0.5
  const OwnerFillOpacity: real := 0.4

  /** `popupText` is either one string or a list of lines. */
  datatype Popup = Text(text: string) | Lines(lines: seq<string>)

  datatype Properties =
    | Styled(popup: Popup, color: string, fillColor: string, fillOpacity: real)
    | Marker(popupLines: seq<string>, iconName: string, turnLayerOff: seq<string>)

  /** `UnionOf(cs)` stands for the merged outline of the squares of `cs`;
      `Shape(o)` for the merged territory of owner `o`. */
  datatype Geometry =
    | Polygon(coordinates: seq<seq<seq<int>>>)
    | PointAt(position: seq<int>)
    | UnionOf(chunks: seq<Chunk>)
    | Shape(owner: Owner)

  datatype Feature = Feature(properties: Properties, geometry: Geometry)

  /** Python compares strings by code point. */
  function NameKey(s: string): seq<int> {
    seq(|s|, i requires 0 <= i < |s| => s[i] as int)
  }

  lemma NameKeyInjective()
    ensures forall a, b :: NameKey(a) == NameKey(b) ==> a == b
  {
    forall a, b | NameKey(a) == NameKey(b)
      ensures a == b
    {
      assert |a| == |NameKey(a)|;
      forall i | 0 <= i < |a|
        ensures a[i] == b[i]
      {
        assert NameKey(a)[i] == NameKey(b)[i];
      }
    }
  }

  function OwnerNameKey(o: Owner): seq<int> {
    NameKey(o.name)
  }

  function Names(os: seq<Owner>): (ns: seq<string>)
    ensures |ns| == |os|
  {
    seq(|os|, i requires 0 <= i < |os| => os[i].name)
  }

  /** `names` is `sorted(n for (_, n) in owners)`: one name per owner, in
      code-point order, duplicates kept. */
  ghost predicate NameListing(owners: set<Owner>, names: seq<string>) {
    SortedBy(names, NameKey) &&
    exists xs :: Distinct(xs) && (forall o :: o in xs <==> o in owners) && names == Names(xs)
  }

  method SortedNames(owners: set<Owner>) returns (names: seq<string>)
    ensures NameListing(owners, names)
    ensures |names| == |owners|
  {
    var listed := ListSet(owners);
    var byName := Sort(listed, OwnerNameKey);
    DistinctPermutation(listed, byName);
    assert forall o :: o in byName <==> o in multiset(listed);
    names := Names(byName);
    assert |byName| == |listed|;
  }

  /** There is exactly one such name list. */
  lemma NameListingUnique(owners: set<Owner>, n1: seq<string>, n2: seq<string>)
    requires NameListing(owners, n1) && NameListing(owners, n2)
    ensures n1 == n2
  {
    var xs1 :| Distinct(xs1) && (forall o :: o in xs1 <==> o in owners) && n1 == Names(xs1);
    var xs2 :| Distinct(xs2) && (forall o :: o in xs2 <==> o in owners) && n2 == Names(xs2);
    SameElementsSameMultiset(xs1, xs2);
    NamesOfPermutation(xs1, xs2);
    NameKeyInjective();
    SortedPermutationsAgree(n1, n2, NameKey);
  }

  lemma SameElementsSameMultiset(xs: seq<Owner>, ys: seq<Owner>)
    requires Distinct(xs) && Distinct(ys)
    requires forall o :: o in xs <==> o in ys
    ensures multiset(xs) == multiset(ys)
  {
    forall o
      ensures multiset(xs)[o] == multiset(ys)[o]
    {
      if o in xs {
        DistinctCountsOne(xs, o);
        DistinctCountsOne(ys, o);
      }
    }
  }

  lemma NamesConcat(a: seq<Owner>, b: seq<Owner>)
    ensures Names(a + b) == Names(a) + Names(b)
  {
  }

  lemma {:induction false} NamesOfPermutation(xs: seq<Owner>, ys: seq<Owner>)
    requires multiset(xs) == multiset(ys)
    ensures multiset(Names(xs)) == multiset(Names(ys))
    decreases |xs|
  {
    if xs == [] {
      assert |ys| == |multiset(ys)| == 0;
    } else {
      var n := |xs| - 1;
      var x := xs[n];
      assert x in multiset(ys);
      var j :| 0 <= j < |ys| && ys[j] == x;
      var rest := ys[..j] + ys[j + 1..];
      assert ys == ys[..j] + [x] + ys[j + 1..];
      assert xs == xs[..n] + [x];
      assert multiset(ys) == multiset(ys[..j]) + multiset{x} + multiset(ys[j + 1..]);
      assert multiset(rest) == multiset(ys[..j]) + multiset(ys[j + 1..]);
      assert multiset(xs) == multiset(xs[..n]) + multiset{x};
      assert multiset(xs[..n]) == multiset(xs) - multiset{x};
      assert multiset(rest) == multiset(ys) - multiset{x};
      NamesOfPermutation(xs[..n], rest);
      NamesConcat(xs[..n], [x]);
      NamesConcat(ys[..j], [x]);
      NamesConcat(ys[..j] + [x], ys[j + 1..]);
      NamesConcat(ys[..j], ys[j + 1..]);
    }
  }

  /** What the fallback builder emits for chunk `c` with owner set `owners`. */
  ghost predicate FeatureFor(f: Feature, c: Chunk, owners: set<Owner>) {
    f.geometry == Polygon(CoordsToFeaturePolygon(ChunkBounds(c))) &&
    if |owners| > 1 then
      exists names :: NameListing(owners, names) &&
        f.properties == Styled(Text("Contested: " + Join(names, ", ")), ContestedColor, ContestedColor, ContestedFillOpacity)
    else
      |owners| == 1 &&
      forall o :: o in owners ==>
        f.properties == Styled(Text(o.name), DefaultEmpireColor, DefaultEmpireColor, OwnerFillOpacity)
  }

  /** The feature of one chunk with at least one owner. */
  method ChunkFeature(c: Chunk, owners: set<Owner>) returns (f: Feature)
    requires owners != {}
    ensures FeatureFor(f, c, owners)
  {
    var geometry := Polygon(CoordsToFeaturePolygon(ChunkBounds(c)));
    if |owners| > 1 {
      var names := SortedNames(owners);
      f := Feature(Styled(Text("Contested: " + Join(names, ", ")), ContestedColor, ContestedColor, ContestedFillOpacity), geometry);
    } else {
      var o := TheOwner(owners);
      f := Feature(Styled(Text(o.name), DefaultEmpireColor, DefaultEmpireColor, OwnerFillOpacity), geometry);
    }
  }

  /** `build_features_from_chunkmap`: one feature per chunk with an owner, in
      increasing chunk order; `chunks[i]` is the chunk of `fs[i]`. */
  method BuildFeaturesFromChunkMap(m: ChunkMap) returns (fs: seq<Feature>, chunks: seq<Chunk>)
    ensures |fs| == |chunks|
    ensures forall c :: c in chunks <==> c in m && m[c] != {}
    ensures Increasing(chunks)
    ensures forall i :: 0 <= i < |fs| ==> chunks[i] in m && FeatureFor(fs[i], chunks[i], m[chunks[i]])
  {
    var keys := SortedElements(m.Keys, ChunkKey);
    SortedChunksIncrease(keys);
    fs, chunks := [], [];
    var i := 0;
    while i < |keys|
      invariant 0 <= i <= |keys|
      invariant |fs| == |chunks|
      invariant forall c :: c in chunks <==> c in keys[..i] && m[c] != {}
      invariant Increasing(chunks)
      invariant forall c, k :: c in chunks && i <= k < |keys| ==> ChunkLess(c, keys[k])
      invariant forall j :: 0 <= j < |fs| ==> chunks[j] in m && FeatureFor(fs[j], chunks[j], m[chunks[j]])
    {
      var c := keys[i];
      assert keys[..i + 1] == keys[..i] + [c];
      if m[c] != {} {
        var f := ChunkFeature(c, m[c]);
        fs, chunks := fs + [f], chunks + [c];
      }
      i := i + 1;
    }
    assert keys[..i] == keys;
  }

  /** The fixed first feature: a marker that switches some layers off. */
  const LayerOff: Feature := Feature(
    Marker(["Repository is here.", "https://github.com/hu-ja-ja/BitCraftMap_With_Empire"],
           "Hex_Logo", ["ruinedLayer", "treesLayer", "templesLayer"]),
    PointAt([-5000, -5000]))

  function ContestedFeature(contested: seq<Chunk>): Feature {
    Feature(Styled(Text("Contested"), ContestedColor, ContestedColor, ContestedFillOpacity), UnionOf(contested))
  }

  /** The owner features followed by the contested feature, which is present
      only when some chunk is contested and the union succeeded. */
  function MapFeatures(ownerFeatures: seq<Feature>, contested: seq<Chunk>, unionFails: bool): (fs: seq<Feature>)
    ensures |ownerFeatures| <= |fs| && fs[..|ownerFeatures|] == ownerFeatures
    ensures |fs| > |ownerFeatures| <==> contested != [] && !unionFails
    ensures |fs| <= |ownerFeatures| + 1
    ensures forall i :: |ownerFeatures| <= i < |fs| ==> fs[i].geometry == UnionOf(contested)
    ensures forall i :: |ownerFeatures| <= i < |fs| ==>
      fs[i].properties == Styled(Text("Contested"), ContestedColor, ContestedColor, ContestedFillOpacity)
  {
    if contested != [] && !unionFails then ownerFeatures + [ContestedFeature(contested)]
    else ownerFeatures
  }

  /** The FeatureCollection's `features`: the marker, then everything else in order. */
  function FeatureCollection(features: seq<Feature>): (fc: seq<Feature>)
    ensures |fc| == |features| + 1
    ensures fc[0] == LayerOff && fc[1..] == features
  {
    [LayerOff] + features
  }

  /** Contested polygons become a feature exactly when the map has a contested chunk. */
  lemma ContestedFeatureIffContestedChunk(m: ChunkMap, b: Buckets, ownerFeatures: seq<Feature>)
    requires forall c :: c in b.contested <==> c in m && |m[c]| > 1
    ensures |FeatureCollection(MapFeatures(ownerFeatures, b.contested, false))| == |ownerFeatures| + 2
      <==> exists c :: c in m && |m[c]| > 1
  {
    if exists c :: c in m && |m[c]| > 1 {
      var c :| c in m && |m[c]| > 1;
      assert c in b.contested;
    }
    if b.contested != [] {
      assert b.contested[0] in b.contested;
    }
  }
}
