/** The public pack (api.InMemoryPack): its metadata and an immutable map
    from locations to asset objects. Every builder returns a pack (a new one
    or the same); only the asset objects it touches change, by filling
    their location cache. */
module FacadePacks {
  import opened Wrappers
  import Keys
  import Assets
  import PackMetadatas

  datatype Pack = Pack(metadata: PackMetadatas.Metadata, assets: map<Keys.Location, Assets.Asset>)

  /** Each asset sits at its own location, and carries the key its document
      names. */
  predicate WellFormed(p: Pack)
  {
    forall l | l in p.assets ::
      l == Keys.LocationOf(p.assets[l].key) && Assets.Consistent(p.assets[l].key, p.assets[l].body)
  }

  /** Map.containsValue: some asset of the map that `a` equals. */
  predicate ContainsValue(assets: map<Keys.Location, Assets.Asset>, a: Assets.Asset)
    reads a, assets.Values
  {
    exists l | l in assets :: a.Equals(assets[l])
  }

  /** The guard of withAsset: the location of `a` is taken and `a` equals one
      of the assets. */
  predicate Holds(p: Pack, a: Assets.Asset)
    reads a, p.assets.Values
  {
    Keys.LocationOf(a.key) in p.assets && ContainsValue(p.assets, a)
  }

  /** In a well-formed pack an asset equals another only when their keys
      agree, so the guard of withAsset names the asset at `a`'s location. */
  lemma HeldAssetIsEqual(p: Pack, a: Assets.Asset)
    requires WellFormed(p) && Assets.Consistent(a.key, a.body) && Holds(p, a)
    ensures a.Equals(p.assets[Keys.LocationOf(a.key)])
  {
    var l :| l in p.assets && a.Equals(p.assets[l]);
    var b := p.assets[l];
    assert a.key == b.key;
  }

  /** of(metadata): an empty pack given the metadata's own document as its
      first asset, at `root:pack.mcmeta` when the document keeps its key. */
  method Of(m: PackMetadatas.Metadata) returns (r: Pack)
    ensures r.metadata == m && WellFormed(r)
    ensures r.assets.Keys == {Keys.LocationOf(m.asset.key)}
    ensures fresh(r.assets[Keys.LocationOf(m.asset.key)])
    ensures r.assets[Keys.LocationOf(m.asset.key)].body == Assets.PackMetadata(m.asset)
    ensures r.assets[Keys.LocationOf(m.asset.key)].Valid()
  {
    var a := Assets.DocumentAsset(Assets.PackMetadata(m.asset));
    r := WithAsset(Pack(m, map[]), a);
  }

  /** withAsset: the same pack when the guard holds; otherwise a pack whose
      map puts `a` at its location. Either way the result holds `a`, so a
      second call with the same asset gives back the pack unchanged. */
  method WithAsset(p: Pack, a: Assets.Asset) returns (r: Pack)
    requires a.Valid()
    modifies a
    ensures a.Valid() && a.location == Some(Keys.LocationOf(a.key))
    ensures a.bytes == old(a.bytes) && a.conversions == old(a.conversions)
    ensures Holds(p, a) ==> r == p
    ensures !Holds(p, a) ==> r == Pack(p.metadata, p.assets[Keys.LocationOf(a.key) := a])
    ensures Holds(r, a)
    ensures WellFormed(p) ==> WellFormed(r)
    ensures WellFormed(p) ==> a.Equals(r.assets[Keys.LocationOf(a.key)])
  {
    var l := a.Location();
    if l in p.assets && ContainsValue(p.assets, a) {
      if WellFormed(p) {
        HeldAssetIsEqual(p, a);
      }
      return p;
    }
    r := Pack(p.metadata, p.assets[l := a]);
    assert a.Equals(r.assets[l]);
  }

  /** withoutAsset(location): the same pack when nothing sits there; otherwise
      a pack without that location. */
  function WithoutAsset(p: Pack, l: Keys.Location): (r: Pack)
    ensures r.metadata == p.metadata && l !in r.assets
    ensures forall l' | l' != l :: Lookup(r, l') == Lookup(p, l')
    ensures l !in p.assets ==> r == p
    ensures WellFormed(p) ==> WellFormed(r)
  {
    if l !in p.assets then p else Pack(p.metadata, p.assets - {l})
  }

  /** withoutAsset(asset): by the asset's location. */
  method WithoutAssetOf(p: Pack, a: Assets.Asset) returns (r: Pack)
    requires a.Valid()
    modifies a
    ensures a.Valid() && a.bytes == old(a.bytes) && a.conversions == old(a.conversions)
    ensures r == WithoutAsset(p, Keys.LocationOf(a.key))
  {
    var l := a.Location();
    r := WithoutAsset(p, l);
  }

  /** asset(location). */
  function Lookup(p: Pack, l: Keys.Location): (r: Option<Assets.Asset>)
    ensures r.Some? <==> l in p.assets
    ensures r.Some? ==> r.value == p.assets[l]
  {
    if l in p.assets then Some(p.assets[l]) else None
  }

  /** asset(location, type): the asset there, if its runtime class is exactly
      the one asked for; asking for an abstract class never finds one. */
  function AssetOf(p: Pack, l: Keys.Location, kind: Assets.Kind): (r: Option<Assets.Asset>)
    ensures r.Some? <==> Lookup(p, l).Some? && Assets.KindOf(Lookup(p, l).value.body) == kind
    ensures r.Some? ==> Lookup(p, l) == r
    ensures Assets.IsAbstract(kind) ==> r == None
  {
    match Lookup(p, l)
    case None => None
    case Some(a) => if Assets.KindOf(a.body) != kind then None else Some(a)
  }

  /** assets(): the assets some location looks up, and nothing else. */
  function AssetObjects(p: Pack): (r: set<Assets.Asset>)
    ensures forall l :: Lookup(p, l).Some? ==> Lookup(p, l).value in r
    ensures forall a :: a in r ==> exists l :: Lookup(p, l) == Some(a)
  {
    assert forall l :: l in p.assets ==> Lookup(p, l) == Some(p.assets[l]);
    p.assets.Values
  }

  /** Putting an asset at a location and removing that location leaves the
      pack as removing it alone would. */
  lemma WithoutUndoesPut(p: Pack, a: Assets.Asset)
    ensures WithoutAsset(Pack(p.metadata, p.assets[Keys.LocationOf(a.key) := a]), Keys.LocationOf(a.key))
            == WithoutAsset(p, Keys.LocationOf(a.key))
  {
    var l := Keys.LocationOf(a.key);
    if l !in p.assets {
      assert p.assets[l := a] - {l} == p.assets;
    } else {
      assert p.assets[l := a] - {l} == p.assets - {l};
    }
  }
}
