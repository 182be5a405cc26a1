/** The pack the game sees (internal.InMemoryPack): a type, a location info,
    a selection config, its own resource store, and the host pack `base` that
    `create()` builds over the store. */
module InternalPacks {
  import opened Wrappers
  import Keys
  import PackMetadataAssets
  import PackMetadatas
  import PackResources

  /** The host's PackCompatibility. */
  datatype Compatibility = TooOld | TooNew | Compatible

  /** Pack.Metadata, the host's reading of a pack's metadata: a description,
      a compatibility, the requested features (possibly absent) and overlays. */
  datatype PackInfo = PackInfo(description: string, compatibility: Compatibility,
                               requestedFeatures: Option<seq<string>>, overlays: seq<string>)

  /** The host Pack object `create()` builds. */
  datatype BasePack = BasePack(info: PackResources.LocationInfo, metadata: PackInfo, config: PackMetadatas.SelectionConfig)

  /** createDefaultMetadata. */
  const DefaultInfo: PackInfo := PackInfo("The in-memory pack of Memora", Compatible, None, [])

  class InternalPack {
    const packType: PackMetadataAssets.PackType
    const info: PackResources.LocationInfo
    const config: PackMetadatas.SelectionConfig
    const resources: PackResources.Store
    var base: Option<BasePack>

    ghost predicate Valid()
      reads this, resources
    {
      resources.Valid() && resources.packType == packType && resources.info == info
    }

    /** A new pack: an empty store of its own, and no base yet. */
    constructor (t: PackMetadataAssets.PackType, info: PackResources.LocationInfo, config: PackMetadatas.SelectionConfig)
      ensures Valid() && fresh(resources)
      ensures packType == t && this.info == info && this.config == config
      ensures resources.resources == map[] && base == None
    {
      packType := t;
      this.info := info;
      this.config := config;
      resources := new PackResources.Store(t, info);
      base := None;
    }

    /** create(): builds the base from the metadata the host reads out of the
        store (`read`, absent when the host finds none), falling back to the
        default. It warns when a base exists already, and rebuilds it anyway. */
    method Create(read: Option<PackInfo>) returns (warned: bool)
      modifies this
      ensures warned == old(base).Some?
      ensures base == Some(BasePack(info, if read.Some? then read.value else DefaultInfo, config))
    {
      warned := base.Some?;
      var metadata := if read.Some? then read.value else DefaultInfo;
      base := Some(BasePack(info, metadata, config));
    }

    /** addResource, delegated to the store. */
    method AddResource(l: Keys.Location, buffer: PackResources.Bytes) returns (r: Option<PackResources.Bytes>)
      requires Valid()
      modifies resources
      ensures Valid() && base == old(base)
      ensures l in old(resources.resources) ==> r == None && resources.resources == old(resources.resources)
      ensures l !in old(resources.resources) ==> r == Some(buffer) && resources.resources == old(resources.resources)[l := buffer]
    {
      r := resources.AddResource(l, buffer);
    }

    /** removeResource, delegated to the store. */
    method RemoveResource(l: Keys.Location) returns (r: Option<PackResources.Bytes>)
      requires Valid()
      modifies resources
      ensures Valid() && base == old(base)
      ensures l !in old(resources.resources) ==> r == None && resources.resources == old(resources.resources)
      ensures l in old(resources.resources) ==> r == Some(old(resources.resources)[l]) && resources.resources == old(resources.resources) - {l}
    {
      r := resources.RemoveResource(l);
    }

    /** containsResource(l): exactly when the pack's store finds a resource at `l`. */
    predicate ContainsResource(l: Keys.Location): (r: bool)
      reads this, resources
      ensures r <==> resources.GetResource(l).Some?
    {
      resources.ContainsResource(l)
    }

    /** open(): the pack's own store, not a copy. */
    function Open(): (r: PackResources.Store)
      ensures r == resources
    {
      resources
    }
  }
}
