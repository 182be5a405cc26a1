/** The public repository (api.InMemoryPackRepository): the packs by id, and,
    for each pack added, a game-side pack registered with the global internal
    repository, which is passed here as a field. */
module FacadeRepositories {
  import opened Wrappers
  import Keys
  import Assets
  import PackMetadatas
  import PackResources
  import InternalPacks
  import InternalRepositories
  import FacadePacks

  /** The store contents a pack's assets give: each location holds the bytes
      of the asset there. */
  function Contents(p: FacadePacks.Pack): (r: map<Keys.Location, PackResources.Bytes>)
    ensures r.Keys == p.assets.Keys
    ensures forall l | l in r :: r[l] == Assets.ToBytes(p.assets[l].body)
  {
    map l | l in p.assets :: Assets.ToBytes(p.assets[l].body)
  }

  /** The contents of the locations of `done` alone. */
  function Loaded(p: FacadePacks.Pack, done: set<Keys.Location>): map<Keys.Location, PackResources.Bytes>
  {
    map l | l in done && l in p.assets :: Assets.ToBytes(p.assets[l].body)
  }

  lemma LoadedAdd(p: FacadePacks.Pack, done: set<Keys.Location>, l: Keys.Location)
    requires l in p.assets
    ensures Loaded(p, done + {l}) == Loaded(p, done)[l := Assets.ToBytes(p.assets[l].body)]
  {
  }

  lemma LoadedAll(p: FacadePacks.Pack)
    ensures Loaded(p, p.assets.Keys) == Contents(p)
  {
  }

  /** The location info a pack registers under: its id, title and source. */
  function InfoOf(m: PackMetadatas.Metadata): (r: PackResources.LocationInfo)
    ensures r.id == m.id && r.title == m.title && r.source == m.source.name
  {
    PackResources.LocationInfo(m.id, m.title, m.source.name)
  }

  /** A game-side pack mirrors `p`: its type, info and config come from the
      metadata, its store holds the pack's contents, and its base is built. */
  ghost predicate Mirrors(ip: InternalPacks.InternalPack, p: FacadePacks.Pack, read: Option<InternalPacks.PackInfo>)
    reads ip, ip.resources
  {
    ip.Valid()
    && ip.packType == PackMetadatas.Type(p.metadata)
    && ip.info == InfoOf(p.metadata)
    && ip.config == p.metadata.config
    && ip.resources.resources == Contents(p)
    && ip.base == Some(InternalPacks.BasePack(ip.info, if read.Some? then read.value else InternalPacks.DefaultInfo, ip.config))
  }

  /** Every asset object of the pack keeps its invariant. */
  ghost predicate AssetsValid(p: FacadePacks.Pack)
    reads p.assets.Values
  {
    forall a | a in p.assets.Values :: a.Valid()
  }

  /** The loop of addPack: a new game-side pack for `p`'s metadata, given the
      bytes of each asset at the asset's location. Each asset computes its
      bytes (at most once over its life) and its location on the way. */
  method Load(p: FacadePacks.Pack) returns (internal: InternalPacks.InternalPack)
    requires FacadePacks.WellFormed(p) && AssetsValid(p)
    modifies p.assets.Values
    ensures fresh(internal) && fresh(internal.resources) && internal.Valid()
    ensures internal.packType == PackMetadatas.Type(p.metadata) && internal.info == InfoOf(p.metadata)
    ensures internal.config == p.metadata.config && internal.base == None
    ensures internal.resources.resources == Contents(p)
    ensures AssetsValid(p) && forall a | a in p.assets.Values :: a.bytes != null
  {
    internal := new InternalPacks.InternalPack(PackMetadatas.Type(p.metadata), InfoOf(p.metadata), p.metadata.config);
    var remaining := p.assets.Keys;
    ghost var done: set<Keys.Location> := {};
    while remaining != {}
      invariant remaining !! done && remaining + done == p.assets.Keys
      invariant fresh(internal) && fresh(internal.resources) && internal.Valid()
      invariant internal.packType == PackMetadatas.Type(p.metadata) && internal.info == InfoOf(p.metadata)
      invariant internal.config == p.metadata.config && internal.base == None
      invariant internal.resources.resources == Loaded(p, done)
      invariant AssetsValid(p)
      invariant forall l | l in done :: p.assets[l].bytes != null
      decreases remaining
    {
      var l :| l in remaining;
      LoadAsset(p, l, internal, done);
      remaining := remaining - {l};
      done := done + {l};
    }
    assert done == p.assets.Keys;
    LoadedAll(p);
  }

  /** One pass of that loop: the asset at `l`, not loaded yet, gives its
      bytes and its location, and the bytes are stored there. */
  method LoadAsset(p: FacadePacks.Pack, l: Keys.Location, internal: InternalPacks.InternalPack,
                   ghost done: set<Keys.Location>)
    requires FacadePacks.WellFormed(p) && AssetsValid(p)
    requires l in p.assets && l !in done
    requires internal.Valid() && internal.resources.resources == Loaded(p, done)
    modifies p.assets[l], internal.resources
    ensures internal.Valid() && internal.resources.resources == Loaded(p, done + {l})
    ensures AssetsValid(p) && p.assets[l].bytes != null
  {
    var a := p.assets[l];
    var buffer := a.Bytes();
    var location := a.Location();
    assert location == l;
    var _ := internal.AddResource(location, buffer.data);
    LoadedAdd(p, done, l);
  }

  /** The rest of addPack once the id is new: a game-side pack is loaded
      with the pack's assets, built, and offered to `repository`. */
  method Register(repository: InternalRepositories.InternalRepository, p: FacadePacks.Pack,
                  read: Option<InternalPacks.PackInfo>)
    requires FacadePacks.WellFormed(p) && AssetsValid(p)
    modifies repository, p.assets.Values
    ensures repository.selected == old(repository.selected)
    ensures AssetsValid(p) && forall a | a in p.assets.Values :: a.bytes != null
    ensures p.metadata.id in old(repository.available) ==> repository.available == old(repository.available)
    ensures p.metadata.id !in old(repository.available) ==>
              p.metadata.id in repository.available
              && fresh(repository.available[p.metadata.id])
              && repository.available == old(repository.available)[p.metadata.id := repository.available[p.metadata.id]]
              && Mirrors(repository.available[p.metadata.id], p, read)
  {
    var internal := Load(p);
    var _ := internal.Create(read);
    var _ := repository.AddPack(internal);
  }

  class FacadeRepository {
    var packs: map<string, FacadePacks.Pack>
    const repository: InternalRepositories.InternalRepository

    constructor (repository: InternalRepositories.InternalRepository)
      ensures packs == map[] && this.repository == repository
    {
      packs := map[];
      this.repository := repository;
    }

    /** addPack: a known id is refused with nothing changed. Otherwise the
        pack is kept, and a new game-side pack is filled with the bytes of
        every asset, built, and offered to the internal repository, which
        keeps it unless that id is taken there already. `read` stands for
        the metadata the host reads back when building. */
    method AddPack(p: FacadePacks.Pack, read: Option<InternalPacks.PackInfo>) returns (r: Option<FacadePacks.Pack>)
      requires FacadePacks.WellFormed(p) && AssetsValid(p)
      modifies this, repository, p.assets.Values
      ensures repository.selected == old(repository.selected)
      ensures p.metadata.id in old(packs) ==>
                r == None && packs == old(packs) && repository.available == old(repository.available)
      ensures p.metadata.id in old(packs) ==> unchanged(p.assets.Values)
      ensures p.metadata.id !in old(packs) ==>
                r == Some(p) && packs == old(packs)[p.metadata.id := p]
                && AssetsValid(p)
                && (forall a | a in p.assets.Values :: a.bytes != null)
      ensures p.metadata.id !in old(packs) && p.metadata.id in old(repository.available) ==>
                repository.available == old(repository.available)
      ensures p.metadata.id !in old(packs) && p.metadata.id !in old(repository.available) ==>
                p.metadata.id in repository.available
                && fresh(repository.available[p.metadata.id])
                && repository.available == old(repository.available)[p.metadata.id := repository.available[p.metadata.id]]
                && Mirrors(repository.available[p.metadata.id], p, read)
    {
      var id := p.metadata.id;
      if id in packs {
        return None;
      }
      packs := packs[id := p];
      Register(repository, p, read);
      r := Some(p);
    }

    /** removePack: an unknown id gives nothing; a known one is dropped here
        and from the internal repository's available packs. */
    method RemovePack(id: string) returns (r: Option<FacadePacks.Pack>)
      modifies this, repository
      ensures packs == old(packs) - {id}
      ensures repository.selected == old(repository.selected)
      ensures id !in old(packs) ==> r == None && repository.available == old(repository.available)
      ensures id in old(packs) ==> r == Some(old(packs)[id]) && repository.available == old(repository.available) - {id}
    {
      if id !in packs {
        return None;
      }
      r := Some(packs[id]);
      packs := packs - {id};
      var _ := repository.RemovePack(id);
    }

    /** getPack. */
    function GetPack(id: string): (r: Option<FacadePacks.Pack>)
      reads this
      ensures r.Some? <==> id in packs
      ensures r.Some? ==> r.value == packs[id]
    {
      if id in packs then Some(packs[id]) else None
    }

    /** getPacks: the packs getPack finds, and nothing else. */
    function GetPacks(): (r: set<FacadePacks.Pack>)
      reads this
      ensures forall id :: GetPack(id).Some? ==> GetPack(id).value in r
      ensures forall p :: p in r ==> exists id :: GetPack(id) == Some(p)
    {
      assert forall id :: id in packs ==> GetPack(id) == Some(packs[id]);
      packs.Values
    }
  }
}
