/** The public pack metadata record (api.InMemoryPackMetadata): an id, a
    title, a source and a selection config, next to the pack metadata
    document. The type and the description live only in the document, and
    the document's builders are reached through the record. */
module PackMetadatas {
  import opened Wrappers
  import OrderedMaps
  import Keys
  import PackMetadataAssets

  /** Stand-ins for the host's PackSource and PackSelectionConfig. */
  datatype PackSource = PackSource(name: string)
  datatype SelectionConfig = SelectionConfig(required: bool, defaultPosition: bool, fixedPosition: bool)

  datatype Metadata = Metadata(
    id: string,
    title: PackMetadataAssets.Component,
    source: PackSource,
    config: SelectionConfig,
    asset: PackMetadataAssets.MetaAsset)

  /** of(...): the fields as given and a fresh document for the type and
      description. */
  function Of(version: PackMetadataAssets.GameVersion, id: string, t: PackMetadataAssets.PackType,
              source: PackSource, config: SelectionConfig,
              title: PackMetadataAssets.Component, description: PackMetadataAssets.Component): (r: Metadata)
    ensures r.id == id && r.title == title && r.source == source && r.config == config
    ensures Type(r) == t && Description(r) == description
    ensures r.asset.key == PackMetadataAssets.PackMetaKey
    ensures r.asset.features == [] && r.asset.languages == []
  {
    Metadata(id, title, source, config, PackMetadataAssets.Of(version, t, description))
  }

  /** type(), read from the document. */
  function Type(m: Metadata): PackMetadataAssets.PackType
  {
    PackMetadataAssets.Type(m.asset)
  }

  /** description(), read from the document. */
  function Description(m: Metadata): PackMetadataAssets.Component
  {
    PackMetadataAssets.Description(m.asset)
  }

  /** The location the document is stored at in a pack: `root:pack.mcmeta`. */
  function AssetLocation(m: Metadata): (r: Keys.Location)
    requires m.asset.key == PackMetadataAssets.PackMetaKey
    ensures r == Keys.Location("root", "pack.mcmeta")
  {
    PackMetadataAssets.PackMetaKeyValid();
    Keys.LocationOf(m.asset.key)
  }

  function WithId(m: Metadata, id: string): (r: Metadata)
    ensures r.id == id && r == m.(id := id)
  {
    Metadata(id, m.title, m.source, m.config, m.asset)
  }

  function WithTitle(m: Metadata, title: PackMetadataAssets.Component): (r: Metadata)
    ensures r.title == title && r == m.(title := title)
  {
    Metadata(m.id, title, m.source, m.config, m.asset)
  }

  function WithSource(m: Metadata, source: PackSource): (r: Metadata)
    ensures r.source == source && r == m.(source := source)
  {
    Metadata(m.id, m.title, source, m.config, m.asset)
  }

  function WithConfig(m: Metadata, config: SelectionConfig): (r: Metadata)
    ensures r.config == config && r == m.(config := config)
  {
    Metadata(m.id, m.title, m.source, config, m.asset)
  }

  /** withType: the document's withType; the type reads back as `t`. */
  function WithType(version: PackMetadataAssets.GameVersion, m: Metadata, t: PackMetadataAssets.PackType): (r: Metadata)
    ensures Type(r) == t && Description(r) == Description(m)
    ensures r == m.(asset := PackMetadataAssets.WithType(version, m.asset, t))
  {
    Metadata(m.id, m.title, m.source, m.config, PackMetadataAssets.WithType(version, m.asset, t))
  }

  /** withDescription: the document's withDescription. */
  function WithDescription(m: Metadata, description: PackMetadataAssets.Component): (r: Metadata)
    ensures Description(r) == description && Type(r) == Type(m)
    ensures r == m.(asset := PackMetadataAssets.WithDescription(m.asset, description))
  {
    Metadata(m.id, m.title, m.source, m.config, PackMetadataAssets.WithDescription(m.asset, description))
  }

  /** withFeature: the document's withFeature. */
  function WithFeature(m: Metadata, feature: Keys.Location): (r: Metadata)
    ensures feature in r.asset.features
    ensures r == m.(asset := PackMetadataAssets.WithFeature(m.asset, feature))
  {
    Metadata(m.id, m.title, m.source, m.config, PackMetadataAssets.WithFeature(m.asset, feature))
  }

  /** withFilter: the document's withFilter. */
  function WithFilter(m: Metadata, pattern: PackMetadataAssets.Pattern): (r: Metadata)
    ensures pattern in r.asset.filters
    ensures r == m.(asset := PackMetadataAssets.WithFilter(m.asset, pattern))
  {
    Metadata(m.id, m.title, m.source, m.config, PackMetadataAssets.WithFilter(m.asset, pattern))
  }

  /** withLanguage: delegates to the document's withLanguage as written, so a
      metadata without languages never gains one, and only the code's entry can
      change. */
  function WithLanguage(m: Metadata, code: string, info: PackMetadataAssets.LanguageInfo): (r: Metadata)
    ensures m.asset.languages == [] ==> r == m
    ensures code in OrderedMaps.KeysOf(m.asset.languages) ==> OrderedMaps.Get(r.asset.languages, code) == Some(info)
    ensures forall k :: k != code ==> OrderedMaps.Get(r.asset.languages, k) == OrderedMaps.Get(m.asset.languages, k)
    ensures r == m.(asset := PackMetadataAssets.WithLanguage(m.asset, code, info))
  {
    Metadata(m.id, m.title, m.source, m.config, PackMetadataAssets.WithLanguage(m.asset, code, info))
  }

  /** withLanguage over the corrected guard of the document: the code maps to
      the info afterwards. */
  function WithLanguageIntended(m: Metadata, code: string, info: PackMetadataAssets.LanguageInfo): (r: Metadata)
    ensures OrderedMaps.Get(r.asset.languages, code) == Some(info)
    ensures forall k :: k != code ==> OrderedMaps.Get(r.asset.languages, k) == OrderedMaps.Get(m.asset.languages, k)
    ensures r == m.(asset := PackMetadataAssets.WithLanguageIntended(m.asset, code, info))
  {
    Metadata(m.id, m.title, m.source, m.config, PackMetadataAssets.WithLanguageIntended(m.asset, code, info))
  }
}
