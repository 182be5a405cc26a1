/** The pack metadata document (InMemoryPackMetadataAsset, the `pack.mcmeta`
    at the pack's root): a pack type, the `pack` section, and sets of features,
    filters, overlays and languages. The host's types and codecs are replaced
    by small stand-ins: only which sections appear, in what order, and what
    each builder step changes are modelled. The source keeps features, filters
    and overlays in hash sets and languages in a hash map, whose iteration
    order follows hash codes; here they are kept in insertion order, so the
    order of the entries inside those JSON lists is not the source's. */
module PackMetadataAssets {
  import opened Wrappers
  import OrderedMaps
  import opened OrderedSets
  import Keys
  import opened Json

  /** The host's PackType. */
  datatype PackType = ClientResources | ServerData

  /** The pack formats of the running game version, which the host reads from
      a global; here it is a parameter. */
  datatype GameVersion = GameVersion(resourcePackFormat: int, dataPackFormat: int)

  function PackVersion(version: GameVersion, t: PackType): int
  {
    match t
    case ClientResources => version.resourcePackFormat
    case ServerData => version.dataPackFormat
  }

  /** A text component, reduced to its text. */
  datatype Component = Component(text: string)

  /** PackMetadataSection: description, pack format and an optional range of
      supported formats. */
  datatype PackSection = PackSection(description: Component, packFormat: int, supportedFormats: Option<(int, int)>)

  /** Stand-ins for ResourceLocationPattern, an overlay entry and LanguageInfo. */
  datatype Pattern = Pattern(namespace: Option<string>, path: Option<string>)
  datatype OverlayEntry = OverlayEntry(minFormat: int, maxFormat: int, directory: string)
  datatype LanguageInfo = LanguageInfo(region: string, name: string, bidirectional: bool)

  datatype MetaAsset = MetaAsset(
    key: Keys.Key,
    packType: PackType,
    features: seq<Keys.Location>,
    section: PackSection,
    filters: seq<Pattern>,
    overlays: seq<OverlayEntry>,
    languages: seq<(string, LanguageInfo)>)

  /** The namespace every root file of a pack lives in. */
  const RootNamespace: string := "root"

  /** `root:pack.mcmeta`. */
  const PackMetaKey: Keys.Key := Keys.Key(RootNamespace, "", "pack", "mcmeta")

  /** The key `of` builds passes Key.of's checks, so `of` never fails. */
  lemma PackMetaKeyValid()
    ensures Keys.Of(RootNamespace, "", "pack", "mcmeta") == Ok(PackMetaKey)
    ensures Keys.LocationOf(PackMetaKey) == Keys.Location("root", "pack.mcmeta")
  {
    assert Keys.ValidNamespace("root") by {
      forall i | 0 <= i < 4 ensures Keys.IsNamespaceChar("root"[i]) {
        assert "root"[i] in "root";
      }
    }
    assert Keys.ValidNamespace("pack") by {
      forall i | 0 <= i < 4 ensures Keys.IsNamespaceChar("pack"[i]) {
        assert "pack"[i] in "pack";
      }
    }
    assert Keys.ValidNamespace("mcmeta") by {
      forall i | 0 <= i < 6 ensures Keys.IsNamespaceChar("mcmeta"[i]) {
        assert "mcmeta"[i] in "mcmeta";
      }
    }
  }

  /** InMemoryPackMetadataAsset.of(type, description): key `root:pack.mcmeta`,
      the game's pack format for the type, no supported range, and every
      collection empty. */
  function Of(version: GameVersion, t: PackType, description: Component): (r: MetaAsset)
    ensures r.key == PackMetaKey && r.packType == t
    ensures r.section == PackSection(description, PackVersion(version, t), None)
    ensures r.features == [] && r.filters == [] && r.overlays == [] && r.languages == []
  {
    MetaAsset(PackMetaKey, t, [], PackSection(description, PackVersion(version, t), None), [], [], [])
  }

  function Type(a: MetaAsset): PackType
  {
    a.packType
  }

  function Description(a: MetaAsset): Component
  {
    a.section.description
  }

  /** withType: a new type recomputes the pack format and drops the supported
      range; the description and every collection are kept. */
  function WithType(version: GameVersion, a: MetaAsset, t: PackType): (r: MetaAsset)
    ensures r.packType == t && r.section.description == a.section.description
    ensures t == a.packType ==> r == a
    ensures t != a.packType ==> r.section.packFormat == PackVersion(version, t) && r.section.supportedFormats == None
    ensures r.key == a.key && r.features == a.features && r.filters == a.filters
            && r.overlays == a.overlays && r.languages == a.languages
  {
    if t == a.packType then a
    else a.(packType := t, section := PackSection(a.section.description, PackVersion(version, t), None))
  }

  /** withFeature: a set add. */
  function WithFeature(a: MetaAsset, feature: Keys.Location): (r: MetaAsset)
    ensures Elements(r.features) == Elements(a.features) + {feature}
    ensures feature in a.features ==> r == a
    ensures feature !in a.features ==> r.features == a.features + [feature]
    ensures r == a.(features := r.features)
  {
    a.(features := Add(a.features, feature))
  }

  /** withDescription: the pack format and supported range are kept. */
  function WithDescription(a: MetaAsset, description: Component): (r: MetaAsset)
    ensures r.section == PackSection(description, a.section.packFormat, a.section.supportedFormats)
    ensures r == a.(section := r.section)
  {
    if a.section.description == description then a
    else a.(section := PackSection(description, a.section.packFormat, a.section.supportedFormats))
  }

  /** withFilter: a set add. */
  function WithFilter(a: MetaAsset, pattern: Pattern): (r: MetaAsset)
    ensures Elements(r.filters) == Elements(a.filters) + {pattern}
    ensures pattern in a.filters ==> r == a
    ensures pattern !in a.filters ==> r.filters == a.filters + [pattern]
    ensures r == a.(filters := r.filters)
  {
    a.(filters := Add(a.filters, pattern))
  }

  /** Map.containsValue(info). */
  predicate ContainsLanguage(languages: seq<(string, LanguageInfo)>, info: LanguageInfo)
  {
    exists i :: 0 <= i < |languages| && languages[i].1 == info
  }

  /** withLanguage, as written: nothing changes when the code is absent AND the
      info is absent; otherwise the code is put with the info. */
  function WithLanguage(a: MetaAsset, code: string, info: LanguageInfo): (r: MetaAsset)
    ensures code !in OrderedMaps.KeysOf(a.languages) && !ContainsLanguage(a.languages, info) ==> r == a
    ensures code in OrderedMaps.KeysOf(a.languages) || ContainsLanguage(a.languages, info) ==>
              OrderedMaps.Get(r.languages, code) == Some(info)
    ensures forall k :: k != code ==> OrderedMaps.Get(r.languages, k) == OrderedMaps.Get(a.languages, k)
    ensures r == a.(languages := r.languages)
  {
    if code !in OrderedMaps.KeysOf(a.languages) && !ContainsLanguage(a.languages, info) then a
    else PutLanguage(a, code, info)
  }

  function PutLanguage(a: MetaAsset, code: string, info: LanguageInfo): (r: MetaAsset)
    ensures OrderedMaps.Get(r.languages, code) == Some(info)
    ensures forall k :: k != code ==> OrderedMaps.Get(r.languages, k) == OrderedMaps.Get(a.languages, k)
    ensures r == a.(languages := r.languages)
  {
    forall k ensures OrderedMaps.Get(OrderedMaps.Put(a.languages, code, info), k)
                     == if k == code then Some(info) else OrderedMaps.Get(a.languages, k) {
      OrderedMaps.PutGet(a.languages, code, info, k);
    }
    a.(languages := OrderedMaps.Put(a.languages, code, info))
  }

  /** The corrected withLanguage: nothing changes only when the code already
      has that info. */
  function WithLanguageIntended(a: MetaAsset, code: string, info: LanguageInfo): (r: MetaAsset)
    ensures OrderedMaps.Get(r.languages, code) == Some(info)
    ensures OrderedMaps.Get(a.languages, code) == Some(info) ==> r == a
    ensures forall k :: k != code ==> OrderedMaps.Get(r.languages, k) == OrderedMaps.Get(a.languages, k)
    ensures r == a.(languages := r.languages)
  {
    if OrderedMaps.Get(a.languages, code) == Some(info) then a else PutLanguage(a, code, info)
  }

  /** With the guard as written, a language can never be added to a document
      that has none, so the `language` section never appears. */
  lemma WithLanguageOnEmptyIsNoOp(a: MetaAsset, code: string, info: LanguageInfo)
    requires a.languages == []
    ensures WithLanguage(a, code, info) == a
    ensures WithLanguage(a, code, info).languages == []
  {
  }

  /** The corrected guard adds the first language. */
  lemma WithLanguageIntendedOnEmptyAdds(a: MetaAsset, code: string, info: LanguageInfo)
    requires a.languages == []
    ensures WithLanguageIntended(a, code, info).languages == [(code, info)]
  {
  }

  // ---------------------------------------------------------------------------
  // The document

  function FeatureItems(features: seq<Keys.Location>): (r: seq<Json>)
    ensures |r| == |features|
    ensures forall i :: 0 <= i < |features| ==> r[i] == JString(Keys.LocationString(features[i]))
  {
    if features == [] then [] else [JString(Keys.LocationString(features[0]))] + FeatureItems(features[1..])
  }

  /** The `features` section: absent without features, else
      `{"enabled": [the features' identifiers]}`. */
  function FeaturesSection(features: seq<Keys.Location>): (r: Option<Json>)
    ensures r.None? <==> features == []
    ensures r.Some? ==> Names(r.value) == ["enabled"]
  {
    if features == [] then None else Some(JObject([("enabled", JArray(FeatureItems(features)))]))
  }

  /** encodeFeaturesSection: one pass over the features, appending each one's text. */
  method EncodeFeaturesSection(features: seq<Keys.Location>) returns (r: Option<Json>)
    ensures r == FeaturesSection(features)
  {
    if |features| == 0 {
      return None;
    }
    var items: seq<Json> := [];
    var i := 0;
    while i < |features|
      invariant 0 <= i <= |features|
      invariant |items| == i
      invariant forall k :: 0 <= k < i ==> items[k] == JString(Keys.LocationString(features[k]))
    {
      items := items + [JString(Keys.LocationString(features[i]))];
      i := i + 1;
    }
    assert items == FeatureItems(features);
    return Some(JObject([("enabled", JArray(items))]));
  }

  /** Reads the feature identifiers back from the `features` section. */
  function FeaturesFromItems(items: seq<Json>): Option<seq<Keys.Location>>
  {
    if items == [] then Some([])
    else match (items[0], FeaturesFromItems(items[1..]))
      case (JString(s), Some(rest)) =>
        (match Keys.ParseLocation(s)
         case Some(l) => Some([l] + rest)
         case None => None)
      case _ => None
  }

  /** The section lists every feature, in order, readably: the identifiers
      read back from it are the features. */
  lemma {:induction false} FeatureItemsRoundTrip(features: seq<Keys.Location>)
    requires forall i :: 0 <= i < |features| ==> Keys.ValidNamespace(features[i].namespace)
    ensures FeaturesFromItems(FeatureItems(features)) == Some(features)
  {
    if features != [] {
      Keys.ParseLocationString(features[0]);
      assert FeatureItems(features)[1..] == FeatureItems(features[1..]);
      FeatureItemsRoundTrip(features[1..]);
      assert [features[0]] + features[1..] == features;
    }
  }

  /** Stand-ins for the host codecs, which never fail on these values. */
  function PackSectionJson(s: PackSection): Json
  {
    JObject([("description", JString(s.description.text)), ("pack_format", JInt(s.packFormat))]
            + (match s.supportedFormats
               case Some((lo, hi)) => [("supported_formats", JArray([JInt(lo), JInt(hi)]))]
               case None => []))
  }

  function PatternJson(p: Pattern): Json
  {
    JObject((match p.namespace case Some(n) => [("namespace", JString(n))] case None => [])
            + (match p.path case Some(q) => [("path", JString(q))] case None => []))
  }

  function FilterSection(filters: seq<Pattern>): Json
  {
    JObject([("block", JArray(seq(|filters|, i requires 0 <= i < |filters| => PatternJson(filters[i]))))])
  }

  function OverlaysSection(overlays: seq<OverlayEntry>): Json
  {
    JObject([("entries", JArray(seq(|overlays|, i requires 0 <= i < |overlays| =>
      JObject([("formats", JArray([JInt(overlays[i].minFormat), JInt(overlays[i].maxFormat)])),
               ("directory", JString(overlays[i].directory))]))))])
  }

  function LanguageJson(info: LanguageInfo): Json
  {
    JObject([("region", JString(info.region)), ("name", JString(info.name)), ("bidirectional", JBool(info.bidirectional))])
  }

  /** encodeLanguagesSection: absent without languages, else an object keyed
      by language code. */
  function LanguagesSection(languages: seq<(string, LanguageInfo)>): (r: Option<Json>)
    ensures r.None? <==> languages == []
    ensures r.Some? ==> Names(r.value) == OrderedMaps.KeysOf(languages)
    ensures r.Some? ==> forall i :: 0 <= i < |languages| ==> r.value.fields[i].1 == LanguageJson(languages[i].1)
  {
    if languages == [] then None
    else Some(JObject(seq(|languages|, i requires 0 <= i < |languages| => (languages[i].0, LanguageJson(languages[i].1)))))
  }

  /** A section in front of `rest` when its encoder produced one. */
  function OptionalSection(name: string, section: Option<Json>, rest: seq<(string, Json)>): seq<(string, Json)>
  {
    OptionalMember(section.Some?, name, section.GetOr(JNull), rest)
  }

  /** InMemoryPackMetadataAsset.toJson: `pack`, `features`, `filter`,
      `overlays`, `language`, each one its encoder produced. */
  function MetaJson(a: MetaAsset): Json
  {
    Document(PackSectionJson(a.section), FeaturesSection(a.features), FilterSection(a.filters),
             OverlaysSection(a.overlays), LanguagesSection(a.languages))
  }

  /** The root object built from the five encoded sections. */
  function Document(pack: Json, features: Option<Json>, filter: Json, overlays: Json, language: Option<Json>): Json
  {
    JObject(OptionalSection("pack", Some(pack),
              OptionalSection("features", features,
                OptionalSection("filter", Some(filter),
                  OptionalSection("overlays", Some(overlays),
                    OptionalSection("language", language, []))))))
  }

  /** The root's members, in order. */
  lemma DocumentNames(pack: Json, features: Option<Json>, filter: Json, overlays: Json, language: Option<Json>)
    ensures Names(Document(pack, features, filter, overlays, language))
            == ["pack"] + (if features.Some? then ["features"] else [])
               + ["filter", "overlays"] + (if language.Some? then ["language"] else [])
  {
    var l := OptionalSection("language", language, []);
    var o := OptionalSection("overlays", Some(overlays), l);
    var fi := OptionalSection("filter", Some(filter), o);
    var fe := OptionalSection("features", features, fi);
    var p := OptionalSection("pack", Some(pack), fe);
    var optLanguage := if language.Some? then ["language"] else [];
    var optFeatures := if features.Some? then ["features"] else [];
    SectionKeys("language", language, []);
    assert OrderedMaps.KeysOf(l) == optLanguage;
    SectionKeys("overlays", Some(overlays), l);
    SectionKeys("filter", Some(filter), o);
    assert OrderedMaps.KeysOf(fi) == ["filter", "overlays"] + optLanguage;
    SectionKeys("features", features, fi);
    SectionKeys("pack", Some(pack), fe);
    assert OrderedMaps.KeysOf(p) == ["pack"] + optFeatures + ["filter", "overlays"] + optLanguage;
  }

  /** What each member of the root holds. */
  lemma DocumentMember(pack: Json, features: Option<Json>, filter: Json, overlays: Json, language: Option<Json>, k: string)
    ensures Member(Document(pack, features, filter, overlays, language), k)
            == if k == "pack" then Some(pack)
               else if k == "features" then features
               else if k == "filter" then Some(filter)
               else if k == "overlays" then Some(overlays)
               else if k == "language" then language
               else None
  {
    var l := OptionalSection("language", language, []);
    var o := OptionalSection("overlays", Some(overlays), l);
    var fi := OptionalSection("filter", Some(filter), o);
    var fe := OptionalSection("features", features, fi);
    SectionLookup("language", language, [], k);
    SectionLookup("overlays", Some(overlays), l, k);
    SectionLookup("filter", Some(filter), o, k);
    SectionLookup("features", features, fi, k);
    SectionLookup("pack", Some(pack), fe, k);
  }

  /** The document's sections and their order: `features` and `language`
      appear exactly when their collections are non-empty; the other three
      always do, since their encoders never come back empty. */
  lemma MetaJsonSections(a: MetaAsset)
    ensures Names(MetaJson(a)) == ["pack"] + (if a.features != [] then ["features"] else [])
                                  + ["filter", "overlays"] + (if a.languages != [] then ["language"] else [])
    ensures Member(MetaJson(a), "pack") == Some(PackSectionJson(a.section))
    ensures Member(MetaJson(a), "features") == FeaturesSection(a.features)
    ensures Member(MetaJson(a), "language") == LanguagesSection(a.languages)
  {
    var pack, features, filter := PackSectionJson(a.section), FeaturesSection(a.features), FilterSection(a.filters);
    var overlays, language := OverlaysSection(a.overlays), LanguagesSection(a.languages);
    DocumentNames(pack, features, filter, overlays, language);
    DocumentMember(pack, features, filter, overlays, language, "pack");
    DocumentMember(pack, features, filter, overlays, language, "features");
    DocumentMember(pack, features, filter, overlays, language, "language");
  }

  /** What one optional section contributes to the names ... */
  lemma SectionKeys(name: string, section: Option<Json>, rest: seq<(string, Json)>)
    ensures OrderedMaps.KeysOf(OptionalSection(name, section, rest))
            == (if section.Some? then [name] else []) + OrderedMaps.KeysOf(rest)
  {
    GetOptionalMember(section.Some?, name, section.GetOr(JNull), rest, name);
  }

  /** ... and to lookups. */
  lemma SectionLookup(name: string, section: Option<Json>, rest: seq<(string, Json)>, k: string)
    ensures OrderedMaps.Get(OptionalSection(name, section, rest), k)
            == if k == name && section.Some? then section else OrderedMaps.Get(rest, k)
  {
    GetOptionalMember(section.Some?, name, section.GetOr(JNull), rest, k);
  }

  /** A fresh document has exactly the `pack`, `filter` and `overlays` sections. */
  lemma OfSections(version: GameVersion, t: PackType, description: Component)
    ensures Names(MetaJson(Of(version, t, description))) == ["pack", "filter", "overlays"]
  {
    MetaJsonSections(Of(version, t, description));
  }

  /** InMemoryPackMetadataAsset.equals: every field, the collections compared
      as sets and the languages as a map. */
  predicate MetaEquals(a: MetaAsset, b: MetaAsset)
  {
    a.key == b.key && a.packType == b.packType && a.section == b.section
    && Elements(a.features) == Elements(b.features)
    && Elements(a.filters) == Elements(b.filters)
    && Elements(a.overlays) == Elements(b.overlays)
    && LanguagesEqual(a.languages, b.languages)
  }

  /** Map equality: the same codes, each with the same info. */
  predicate LanguagesEqual(a: seq<(string, LanguageInfo)>, b: seq<(string, LanguageInfo)>)
  {
    Elements(OrderedMaps.KeysOf(a)) == Elements(OrderedMaps.KeysOf(b))
    && forall k | k in OrderedMaps.KeysOf(a) :: OrderedMaps.Get(a, k) == OrderedMaps.Get(b, k)
  }

  /** LanguagesEqual is equality of the maps as lookups. */
  lemma LanguagesEqualIsLookup(a: seq<(string, LanguageInfo)>, b: seq<(string, LanguageInfo)>)
    ensures LanguagesEqual(a, b) ==> forall k :: OrderedMaps.Get(a, k) == OrderedMaps.Get(b, k)
    ensures (forall k :: OrderedMaps.Get(a, k) == OrderedMaps.Get(b, k)) ==> LanguagesEqual(a, b)
  {
    if LanguagesEqual(a, b) {
      LanguagesEqualLookup(a, b);
    }
    if forall k :: OrderedMaps.Get(a, k) == OrderedMaps.Get(b, k) {
      LookupLanguagesEqual(a, b);
    }
  }

  lemma LookupLanguagesEqual(a: seq<(string, LanguageInfo)>, b: seq<(string, LanguageInfo)>)
    requires forall k :: OrderedMaps.Get(a, k) == OrderedMaps.Get(b, k)
    ensures LanguagesEqual(a, b)
  {
    forall k ensures k in OrderedMaps.KeysOf(a) <==> k in OrderedMaps.KeysOf(b) {
      assert OrderedMaps.Get(a, k) == OrderedMaps.Get(b, k);
    }
    assert Elements(OrderedMaps.KeysOf(a)) == Elements(OrderedMaps.KeysOf(b));
  }

  lemma LanguagesEqualLookup(a: seq<(string, LanguageInfo)>, b: seq<(string, LanguageInfo)>)
    requires LanguagesEqual(a, b)
    ensures forall k :: OrderedMaps.Get(a, k) == OrderedMaps.Get(b, k)
  {
    forall k ensures OrderedMaps.Get(a, k) == OrderedMaps.Get(b, k) {
      if k !in OrderedMaps.KeysOf(a) {
        assert k !in Elements(OrderedMaps.KeysOf(b));
      }
    }
  }

  /** Adding a feature twice, or in the other order, gives an equal document. */
  lemma WithFeatureCommutes(a: MetaAsset, f: Keys.Location, g: Keys.Location)
    ensures MetaEquals(WithFeature(WithFeature(a, f), g), WithFeature(WithFeature(a, g), f))
    ensures WithFeature(WithFeature(a, f), f) == WithFeature(a, f)
  {
  }
}
