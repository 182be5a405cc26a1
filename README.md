# Memora in-memory resource packs, modelled in Dafny

Memora builds Minecraft resource packs in memory: a mod describes a pack
(its metadata and a set of assets) and registers it, and the game then reads
the assets from an in-memory store as if they were files. This project models
the core of that pipeline and proves what each step promises.

- **Asset keys** (`Keys`, key.dfy): the four-part key (namespace, prefix,
  name, suffix), its validation in check order, its identifier
  `namespace:prefix/name.suffix`, `toString`, and `Key.of(location)`, which
  splits a flat path back into the four parts. The round trip is proved for
  every valid key whose suffix has no `.`; the cases where it breaks are shown.
- **Assets** (`Assets`, assets.dfy; `Utf8`, utf8.dfy; `Json`, json.dfy): an
  asset is an object with a key, a body (raw bytes, raw text, a block-state
  document or a pack-metadata document), and two caches that `location()` and
  `bytes()` fill on first use. A ghost counter proves that `toBytes` runs at
  most once per asset. Text bodies are turned into bytes as UTF-8, and decoding
  gives the text back; text here is a sequence of Unicode scalar values, so the
  unpaired surrogates a Java string may hold are outside the model. Equality
  of a pack-metadata asset is its document's own structural comparison, which
  makes it one-sided against other assets. Equality of every other asset
  compares the keys and the cached arrays; lemmas show what that means before
  and after the caches are filled.
- **Block states** (`BlockStates`, blockstate.dfy): models with rotation
  clamping and weight validation, variants, multipart rules, property and
  AND/OR conditions, the `withVariant`/`withMultipart` builders, and the JSON
  tree each piece compiles to. The model JSON reads back to the model.
- **Pack metadata** (`PackMetadataAssets`, packmetadata_asset.dfy;
  `PackMetadatas`, pack_metadata.dfy): the `pack.mcmeta` document builder. Its
  features and filters behave as sets and its languages as a map. The JSON has
  its sections in a fixed order, and a section appears only when there is
  something to put in it. The metadata record delegates to it.
- **Store** (`PackResources`, resources.dfy): a class with the resource map and
  the per-namespace reference counts. Its invariant says the counts are exactly
  the number of stored locations in each namespace. It also has add, remove,
  lookups, single-level listing and counts.
- **Game-side pack and registry** (`InternalPacks`, internal_pack.dfy;
  `InternalRepositories`, internal_repository.dfy): a pack owning one store and
  a `base` built by `create()`; the registry of available packs; and the
  ordered selection that `setSelected` rebuilds.
- **Public pack and repository** (`FacadePacks`, facade_pack.dfy;
  `FacadeRepositories`, facade_repository.dfy): the copy-on-write pack of asset
  objects, and the repository that hands every asset's cached byte array to a
  new store (the array itself, not a copy), builds the game-side pack and
  registers it.

Shared shapes live in common.dfy:
- `Option`/`Result`;
- an insertion-ordered map as a sequence of pairs, for `LinkedHashMap`;
- an insertion-ordered set, for `LinkedHashSet`.

Java's `HashMap` and `HashSet` become Dafny maps and sets when nothing depends
on their order.

## Model

| member | source | states |
|---|---|---|
| `Keys.Of` | src/main/java/com/ishikyoo/memora/api/asset/InMemoryAsset.java:96-103 | succeeds iff namespace, name and suffix are over `[a-z0-9._-]` and the prefix over `[a-z0-9._-/]`; otherwise reports the first failing part, in the order namespace, prefix, name, suffix |
| `Keys.WithNamespace` | src/main/java/com/ishikyoo/memora/api/asset/InMemoryAsset.java:121-123 | fails exactly on an invalid namespace; otherwise only the namespace changes |
| `Keys.WithPrefix` | src/main/java/com/ishikyoo/memora/api/asset/InMemoryAsset.java:125-127 | fails exactly on an invalid prefix; otherwise only the prefix changes |
| `Keys.WithName` | src/main/java/com/ishikyoo/memora/api/asset/InMemoryAsset.java:129-131 | fails exactly on an invalid name; otherwise only the name changes |
| `Keys.WithSuffix` | src/main/java/com/ishikyoo/memora/api/asset/InMemoryAsset.java:133-135 | fails exactly on an invalid suffix; otherwise only the suffix changes |
| `Keys.LocationOf` | src/main/java/com/ishikyoo/memora/api/asset/InMemoryAsset.java:89-94 | the key's identifier, in its namespace; `LocationOfValid` proves it valid for every valid key, and `OfLocationRoundTrip` that `Key.of` inverts it when the suffix has no `.` |
| `Keys.OfLocation` | src/main/java/com/ishikyoo/memora/api/asset/InMemoryAsset.java:105-119 | fails only with the missing-suffix error naming the path; on success the namespace is kept, the name and suffix hold no `/`, and the suffix holds no `.`; `OfLocationSucceeds`, `OfLocationValid` and `OfLocationRoundTrip` say when it succeeds and what comes back |
| `Keys.ToString` | src/main/java/com/ishikyoo/memora/api/asset/InMemoryAsset.java:184-192 | specified by `ToStringIsLocationString` (the text of the key's identifier, `namespace:path`) and `ParseLocationString` (that text reads back as the identifier) |
| `Keys.LocationOfValid` | src/main/java/com/ishikyoo/memora/api/asset/InMemoryAsset.java:89-94 | the identifier of a valid key has a valid namespace and path, so building it cannot fail |
| `Keys.OfLocationRoundTrip` | src/main/java/com/ishikyoo/memora/api/asset/InMemoryAsset.java:105-119 | `Key.of(k.location())` gives back `k` for every valid key whose suffix has no `.` |
| `Keys.OfLocationMovesDottedSuffix` | src/main/java/com/ishikyoo/memora/api/asset/InMemoryAsset.java:113-116 | the suffix condition is needed: the valid key `m:n.a.b` with suffix `a.b` comes back as name `n.a`, suffix `b` |
| `Keys.OfLocationSucceeds` | src/main/java/com/ishikyoo/memora/api/asset/InMemoryAsset.java:112-115 | `Key.of(location)` succeeds iff the file name after the last `/` contains a `.` |
| `Keys.OfLocationValid` | src/main/java/com/ishikyoo/memora/api/asset/InMemoryAsset.java:106-118 | from a valid identifier, `Key.of(location)` builds a valid key even though it does not validate |
| `Keys.OfLocationRejoin` | src/main/java/com/ishikyoo/memora/api/asset/InMemoryAsset.java:107-111 | splitting and rejoining gives the identifier back iff its path does not have its last `/` in front |
| `Keys.ToStringIsLocationString` | src/main/java/com/ishikyoo/memora/api/asset/InMemoryAsset.java:184-192 | `toString()` is `namespace:` then the key's path, the same text as its identifier |
| `Keys.ParseLocationString` | src/main/java/com/ishikyoo/memora/api/asset/InMemoryAsset.java:185-191 | that text reads back as the identifier, so different identifiers print differently (different keys need not: see `Keys.DottedKeysCollide`) |
| `Keys.DottedKeysCollide` | src/main/java/com/ishikyoo/memora/api/asset/InMemoryAsset.java:184-192 | the valid keys with name `b.c`, suffix `d` and with name `b`, suffix `c.d` differ, yet have the same location and print the same text `m:b.c.d` |
| `Utf8.EncodeChar` | src/main/java/com/ishikyoo/memora/api/asset/InMemoryTextAsset.java:15-16 | one to four bytes per code point; a single byte exactly below 0x80, and then the code itself |
| `Utf8.Encode` | src/main/java/com/ishikyoo/memora/api/asset/InMemoryTextAsset.java:16-17 | `getBytes(UTF_8)`: at least one and at most four bytes per char; `DecodeEncode` and `EncodeInjective` are its partners |
| `Utf8.Decode` | src/main/java/com/ishikyoo/memora/api/asset/InMemoryTextAsset.java:14-17 | the reference decoder the encoding is checked against: never more chars than bytes, and the empty text for no bytes; `DecodeEncode` proves it inverts `Encode` |
| `Utf8.DecodeEncode` | src/main/java/com/ishikyoo/memora/api/asset/InMemoryTextAsset.java:13-23 | decoding the UTF-8 bytes of any text of Unicode scalar values gives the text back |
| `Utf8.EncodeInjective` | src/main/java/com/ishikyoo/memora/api/asset/InMemoryTextAsset.java:14-17 | different texts of Unicode scalar values have different bytes |
| `Utf8.EncodeAscii` | src/main/java/com/ishikyoo/memora/api/asset/InMemoryTextAsset.java:13-17 | ASCII text is encoded one byte per character, the byte being the character's code |
| `Assets.ToBytesDecodes` | src/main/java/com/ishikyoo/memora/api/asset/InMemoryTextAsset.java:13-23 | the bytes of every text body decode to that body's text (text of Unicode scalar values) |
| `Assets.ToText` | src/main/java/com/ishikyoo/memora/api/asset/InMemoryJSONAsset.java:20-30 | a raw text asset's own text, or the rendered JSON tree of a document; `ToBytesDecodes` and `Assets.Asset.Text` state what it means for `text()` |
| `Assets.ToBytes` | src/main/java/com/ishikyoo/memora/api/asset/InMemoryTextAsset.java:13-23 | a text asset's bytes number between its text's length and four times it; `ToBytesDecodes` proves they decode back to the text |
| `Assets.KindOf` | src/main/java/com/ishikyoo/memora/api/InMemoryPack.java:49 | an asset's runtime class is one of the four concrete classes, never an abstract one, and it is the raw class exactly for a byte body |
| `Assets.Asset.constructor` | src/main/java/com/ishikyoo/memora/api/asset/InMemoryAsset.java:16-19 | a new asset has no cached location; a raw asset starts with its array cached, a text asset with none |
| `Assets.Asset.Location` | src/main/java/com/ishikyoo/memora/api/asset/InMemoryAsset.java:25-30 | returns the key's identifier and leaves it cached; the byte cache is untouched |
| `Assets.Asset.Bytes` | src/main/java/com/ishikyoo/memora/api/asset/InMemoryAsset.java:32-43 | returns an array holding the body's bytes; a filled cache is returned as the same array; the conversion runs only when the cache is empty, and at most once over the asset's life |
| `Assets.Asset.Text` | src/main/java/com/ishikyoo/memora/api/asset/InMemoryTextAsset.java:25-33 | `text()` is the text whose UTF-8 encoding is `toBytes()`, and which those bytes decode to |
| `Assets.Asset.RawOf` | src/main/java/com/ishikyoo/memora/api/asset/InMemoryRawAsset.java:15-18 | fails exactly when `Key.of(location)` fails; otherwise a fresh raw asset with that key and the given array |
| `Assets.Asset.WithLocation` | src/main/java/com/ishikyoo/memora/api/asset/InMemoryRawTextAsset.java:22-26 | the same object when the location is its own; otherwise a fresh asset with the key of the new location and the same text or the same array (the raw asset's version is InMemoryRawAsset.java:20-24) |
| `Assets.Asset.WithText` | src/main/java/com/ishikyoo/memora/api/asset/InMemoryRawTextAsset.java:28-31 | the same object for the same text; otherwise a fresh asset with the same key, the new text and no cached bytes |
| `Assets.Asset.WithData` | src/main/java/com/ishikyoo/memora/api/asset/InMemoryRawAsset.java:26-29 | the same object only when given the very array it holds; any other array, even with equal contents, gives a fresh asset |
| `Assets.RawTextOf` | src/main/java/com/ishikyoo/memora/api/asset/InMemoryRawTextAsset.java:17-20 | fails exactly when `Key.of(location)` fails; otherwise a fresh text asset with that key and the text verbatim |
| `Assets.DocumentAsset` | src/main/java/com/ishikyoo/memora/api/asset/InMemoryTextAsset.java:9-11 | a structured document becomes a fresh asset with the document's key and no cached bytes |
| `Assets.Asset.Equals` | src/main/java/com/ishikyoo/memora/api/asset/InMemoryAsset.java:45-51 | specified by `EqualsOnceCached` (with both caches filled: same key and same bytes), `UncachedTextAssetsEqual` (before the caches: any two same-key assets) and `EqualsAsymmetric` (the pack-metadata override is one-sided) |
| `Assets.EqualsOnceCached` | src/main/java/com/ishikyoo/memora/api/asset/InMemoryAsset.java:45-51 | once both caches are filled, two assets are equal iff their keys are equal and their bytes have the same contents |
| `Assets.UncachedTextAssetsEqual` | src/main/java/com/ishikyoo/memora/api/asset/InMemoryAsset.java:49-50 | before any `bytes()` call, two text assets with the same key are equal even though their bytes differ |
| `Assets.EqualsAsymmetric` | src/main/java/com/ishikyoo/memora/api/asset/InMemoryPackMetadataAsset.java:188-199 | a raw text asset can equal a pack-metadata asset with the same key while the metadata asset does not equal it back |
| `BlockStates.JavaRem` | src/main/java/com/ishikyoo/memora/api/asset/InMemoryBlockStateAsset.java:175 | Java's `%`: the remainder takes the sign of the dividend |
| `BlockStates.NormalizeIsResidue` | src/main/java/com/ishikyoo/memora/api/asset/InMemoryBlockStateAsset.java:175 | `((d % 360) + 360) % 360` in Java is the mathematical residue of `d` modulo 360 |
| `BlockStates.ClampDegrees` | src/main/java/com/ishikyoo/memora/api/asset/InMemoryBlockStateAsset.java:174-177 | always 0, 90, 180 or 270, and it is the quarter turn nearest to the angle's residue, with halves rounded up and 360 wrapped to 0 |
| `BlockStates.ClampDegreesIdempotent` | src/main/java/com/ishikyoo/memora/api/asset/InMemoryBlockStateAsset.java:174-177 | clamping a clamped angle changes nothing |
| `BlockStates.ClampDegreesPeriodic` | src/main/java/com/ishikyoo/memora/api/asset/InMemoryBlockStateAsset.java:174-177 | angles a full turn apart clamp alike |
| `BlockStates.ClampDegreesExamples` | src/main/java/com/ishikyoo/memora/api/asset/InMemoryBlockStateAsset.java:174-177 | 44→0, 45→90, 46→90, 315→0, -10→0, -45→0, 135→180, -100→270 |
| `BlockStates.NewModel` | src/main/java/com/ishikyoo/memora/api/asset/InMemoryBlockStateAsset.java:118-125 | a weight below 1 is refused with that weight; any other weight gives the model with the given fields |
| `BlockStates.ModelOf` | src/main/java/com/ishikyoo/memora/api/asset/InMemoryBlockStateAsset.java:127-129 | no rotation, no uvlock, weight 1 |
| `BlockStates.WithPath` | src/main/java/com/ishikyoo/memora/api/asset/InMemoryBlockStateAsset.java:131-134 | only the path changes |
| `BlockStates.WithX` | src/main/java/com/ishikyoo/memora/api/asset/InMemoryBlockStateAsset.java:136-140 | x becomes the clamped angle and nothing else changes; an angle that clamps to the current x leaves the model as it is |
| `BlockStates.WithY` | src/main/java/com/ishikyoo/memora/api/asset/InMemoryBlockStateAsset.java:142-146 | y becomes the clamped angle and nothing else changes; an angle that clamps to the current y leaves the model as it is |
| `BlockStates.WithUVLock` | src/main/java/com/ishikyoo/memora/api/asset/InMemoryBlockStateAsset.java:148-151 | only uvlock changes |
| `BlockStates.WithWeight` | src/main/java/com/ishikyoo/memora/api/asset/InMemoryBlockStateAsset.java:153-156 | goes through the constructor: a weight below 1 is refused; otherwise only the weight changes |
| `BlockStates.ModelJsonMembers` | src/main/java/com/ishikyoo/memora/api/asset/InMemoryBlockStateAsset.java:164-172 | the object always has `model`; `x`, `y` only when non-zero, `uvlock` only when true, `weight` only when not 1 |
| `BlockStates.ModelJsonRoundTrip` | src/main/java/com/ishikyoo/memora/api/asset/InMemoryBlockStateAsset.java:164-172 | the model reads back from its JSON, so the omitted members lose nothing |
| `BlockStates.ModelJson` | src/main/java/com/ishikyoo/memora/api/asset/InMemoryBlockStateAsset.java:164-172 | specified by `ModelJsonMembers` (`model` always, each other member only off its default) and `ModelJsonRoundTrip` (reads back to the model) |
| `BlockStates.ModelsJson` | src/main/java/com/ishikyoo/memora/api/asset/InMemoryBlockStateAsset.java:86-93 | one model encodes as that model's object, any other number as an array of them in order |
| `BlockStates.ModelsJsonRoundTrip` | src/main/java/com/ishikyoo/memora/api/asset/InMemoryBlockStateAsset.java:86-93 | the models read back from that single-or-array form |
| `BlockStates.VariantJson` | src/main/java/com/ishikyoo/memora/api/asset/InMemoryBlockStateAsset.java:86-93 | specified by `ModelsJson` (a lone model as its object, otherwise an array) and `ModelsJsonRoundTrip` (the models read back) |
| `BlockStates.VariantOf` | src/main/java/com/ishikyoo/memora/api/asset/InMemoryBlockStateAsset.java:76-79 | a variant of exactly that one model |
| `BlockStates.VariantOfAll` | src/main/java/com/ishikyoo/memora/api/asset/InMemoryBlockStateAsset.java:81-84 | the same set of models, without repeats, each at the place of its first occurrence: distinct, the same elements, and ordered by first occurrence in the argument, which `OrderedSets.DedupCharacterized` shows fixes the sequence |
| `BlockStates.VariantEquals` | src/main/java/com/ishikyoo/memora/api/asset/InMemoryBlockStateAsset.java:95-100 | specified by `VariantEqualsIgnoresOrder` |
| `BlockStates.VariantEqualsIgnoresOrder` | src/main/java/com/ishikyoo/memora/api/asset/InMemoryBlockStateAsset.java:81-84 | two `Variant.of(models)` results are equal iff the two collections hold the same models, whatever their order and repeats |
| `BlockStates.PropertyOf` | src/main/java/com/ishikyoo/memora/api/asset/InMemoryBlockStateAsset.java:278-281 | a property condition on that key whose values are the given ones without repeats, in first-occurrence order |
| `BlockStates.DedupConditions` | src/main/java/com/ishikyoo/memora/api/asset/InMemoryBlockStateAsset.java:323-329 | every kept condition was given; every given condition is equal to a kept one; no kept condition is equal to an earlier kept one; the kept ones are in the order they first occur |
| `BlockStates.DedupConditionsFirstOfGroup` | src/main/java/com/ishikyoo/memora/api/asset/InMemoryBlockStateAsset.java:323-329 | each kept condition is the first of its group: every condition given before its first occurrence is equal to one kept before it |
| `BlockStates.DedupConditionsKeepsFirst` | src/main/java/com/ishikyoo/memora/api/asset/InMemoryBlockStateAsset.java:323-324 | of the distinct but equal conditions `k∈{x,y}` and `k∈{y,x}`, given in that order, the first is kept |
| `BlockStates.CompositeOf` | src/main/java/com/ishikyoo/memora/api/asset/InMemoryBlockStateAsset.java:318-329 | an AND/OR node whose children are the given conditions up to condition equality: each given, each given one represented, none equal to an earlier one, in first-occurrence order, each the first of its group |
| `BlockStates.CondEquals` | src/main/java/com/ishikyoo/memora/api/asset/InMemoryBlockStateAsset.java:296-301 | property conditions by key and value set, composites by operator and child set (`InMemoryBlockStateAsset.java:340-345`); specified by `CondEqualsReflexive`, `DedupConditions` (kept children pairwise unequal) and `CondEqualsAsymmetricOnRepeats` |
| `BlockStates.CondEqualsReflexive` | src/main/java/com/ishikyoo/memora/api/asset/InMemoryBlockStateAsset.java:340-345 | condition equality holds of every condition with itself, nested composites included |
| `BlockStates.CondEqualsAsymmetricOnRepeats` | src/main/java/com/ishikyoo/memora/api/asset/InMemoryBlockStateAsset.java:341-344 | set equality on children is one-sided when children repeat up to equality: `and[x, y]` equals `and[x, x]` but not the reverse; kept as documentation: no constructor builds such a composite, and it is why the model compares in one orientation only |
| `BlockStates.CondJson` | src/main/java/com/ishikyoo/memora/api/asset/InMemoryBlockStateAsset.java:283-294 | one member: a property encodes its single value as a string and any other number as an array; a composite encodes as `{op: [children]}` |
| `BlockStates.MultipartOf` | src/main/java/com/ishikyoo/memora/api/asset/InMemoryBlockStateAsset.java:208-211 | the rule with that condition and exactly that one model |
| `BlockStates.MultipartOfAll` | src/main/java/com/ishikyoo/memora/api/asset/InMemoryBlockStateAsset.java:212-215 | the rule with that condition and the models without repeats, in first-occurrence order |
| `BlockStates.WithWhen` | src/main/java/com/ishikyoo/memora/api/asset/InMemoryBlockStateAsset.java:217-220 | the same rule for an equal condition; otherwise only the condition changes |
| `BlockStates.WithApply` | src/main/java/com/ishikyoo/memora/api/asset/InMemoryBlockStateAsset.java:222-226 | the condition is kept and the models become exactly the one given |
| `BlockStates.WithApplyAll` | src/main/java/com/ishikyoo/memora/api/asset/InMemoryBlockStateAsset.java:228-232 | the condition is kept and the models become the given set; the same set gives back the same rule; otherwise the models are the given ones without repeats in first-occurrence order |
| `BlockStates.WithoutWhen` | src/main/java/com/ishikyoo/memora/api/asset/InMemoryBlockStateAsset.java:234-237 | the condition is dropped and the models are kept |
| `BlockStates.WhenEquals` | src/main/java/com/ishikyoo/memora/api/asset/InMemoryBlockStateAsset.java:256 | `Objects.equals` on two optional conditions; `WithWhen` states the rule is returned unchanged exactly when it holds |
| `BlockStates.MultipartEquals` | src/main/java/com/ishikyoo/memora/api/asset/InMemoryBlockStateAsset.java:253-257 | the same condition and the same set of models; specified by `MultipartEqualsReflexive`, and by `WithMultipart` through `ContainsMultipart` |
| `BlockStates.MultipartEqualsReflexive` | src/main/java/com/ishikyoo/memora/api/asset/InMemoryBlockStateAsset.java:253-257 | rule equality holds of every rule with itself |
| `BlockStates.MultipartJson` | src/main/java/com/ishikyoo/memora/api/asset/InMemoryBlockStateAsset.java:239-250 | `when` then `apply`, with `when` omitted when there is no condition; `apply` in the single-or-array form |
| `BlockStates.Of` | src/main/java/com/ishikyoo/memora/api/asset/InMemoryBlockStateAsset.java:31-34 | an empty document keyed `namespace:blockstates/name.json`; an invalid namespace or name is refused |
| `BlockStates.OfLocation` | src/main/java/com/ishikyoo/memora/api/asset/InMemoryBlockStateAsset.java:26-29 | the same as `of(namespace, path)` of the identifier |
| `BlockStates.WithVariant` | src/main/java/com/ishikyoo/memora/api/asset/InMemoryBlockStateAsset.java:36-41 | as written: the same document when the key is present and the variant equals any value of the map; otherwise the key maps to the variant and multipart is cleared; other keys keep their variants |
| `BlockStates.WithVariantIntended` | src/main/java/com/ishikyoo/memora/api/asset/InMemoryBlockStateAsset.java:37-40 | corrected: the same document only when the key already maps to an equal variant; otherwise the key maps to the variant, multipart is cleared, other keys are unchanged |
| `BlockStates.WithMultipart` | src/main/java/com/ishikyoo/memora/api/asset/InMemoryBlockStateAsset.java:43-48 | the same document when an equal rule is present; otherwise the rule is appended and the variants are cleared; either way the result holds the rule |
| `BlockStates.ContainsVariant` | src/main/java/com/ishikyoo/memora/api/asset/InMemoryBlockStateAsset.java:37 | `containsValue`: some key maps to an equal variant; `WithVariant` states the document is returned unchanged exactly when the key is present and this holds |
| `BlockStates.ContainsMultipart` | src/main/java/com/ishikyoo/memora/api/asset/InMemoryBlockStateAsset.java:44 | `contains`: some rule is equal; `WithMultipart` states the document is unchanged when this holds, that the rule is appended otherwise, and that it holds afterwards |
| `BlockStates.WithVariantKeepsExclusive` | src/main/java/com/ishikyoo/memora/api/asset/InMemoryBlockStateAsset.java:38-40 | a document never holds variants and multipart rules at once after `withVariant` |
| `BlockStates.WithMultipartKeepsExclusive` | src/main/java/com/ishikyoo/memora/api/asset/InMemoryBlockStateAsset.java:45-47 | likewise after `withMultipart` |
| `BlockStates.WithMultipartIdempotent` | src/main/java/com/ishikyoo/memora/api/asset/InMemoryBlockStateAsset.java:44-45 | adding the same rule twice is adding it once |
| `BlockStates.WithVariantIdempotent` | src/main/java/com/ishikyoo/memora/api/asset/InMemoryBlockStateAsset.java:37-38 | putting the same variant under the same key twice is putting it once |
| `BlockStates.WithVariantIntendedIdempotent` | src/main/java/com/ishikyoo/memora/api/asset/InMemoryBlockStateAsset.java:39-40 | the same for the corrected builder |
| `BlockStates.WithVariantKeepsStaleValue` | src/main/java/com/ishikyoo/memora/api/asset/InMemoryBlockStateAsset.java:37 | as written, re-pointing key `a` to the variant already stored under `b` changes nothing, so `a` keeps its old variant |
| `BlockStates.WithVariantIntendedUpdates` | src/main/java/com/ishikyoo/memora/api/asset/InMemoryBlockStateAsset.java:38-40 | the corrected builder makes `a` map to that variant |
| `BlockStates.VariantFields` | src/main/java/com/ishikyoo/memora/api/asset/InMemoryBlockStateAsset.java:55-58 | one member per variant key, in insertion order, each the variant's JSON |
| `BlockStates.MultipartItems` | src/main/java/com/ishikyoo/memora/api/asset/InMemoryBlockStateAsset.java:60-64 | one item per rule, in order |
| `BlockStates.DocJsonSections` | src/main/java/com/ishikyoo/memora/api/asset/InMemoryBlockStateAsset.java:51-67 | `variants` before `multipart`, each only when non-empty, the variants in insertion order |
| `BlockStates.EmptyDocJson` | src/main/java/com/ishikyoo/memora/api/asset/InMemoryBlockStateAsset.java:52-66 | an empty document gives `{}` |
| `BlockStates.DocJson` | src/main/java/com/ishikyoo/memora/api/asset/InMemoryBlockStateAsset.java:51-67 | specified by `DocJsonSections` (`variants` before `multipart`, each only when non-empty), `EmptyDocJson` and `SingleVariantDocJson` |
| `BlockStates.SingleVariantDocJson` | src/main/java/com/ishikyoo/memora/api/asset/InMemoryBlockStateAsset.java:53-58 | a one-model variant with default fields encodes as `{"variants": {"": {"model": …}}}` |
| `PackMetadataAssets.PackMetaKeyValid` | src/main/java/com/ishikyoo/memora/api/asset/InMemoryPackMetadataAsset.java:48-55 | the metadata key `root`, ``, `pack`, `mcmeta` is valid and located at `root:pack.mcmeta` |
| `PackMetadataAssets.Of` | src/main/java/com/ishikyoo/memora/api/asset/InMemoryPackMetadataAsset.java:49-54 | that key, the type, the type's pack format, no supported formats, and every collection empty |
| `PackMetadataAssets.Type` | src/main/java/com/ishikyoo/memora/api/asset/InMemoryPackMetadataAsset.java:57-59 | the stored type; `PackMetadatas.Of` and `PackMetadatas.WithType` state what it reads after each builder |
| `PackMetadataAssets.Description` | src/main/java/com/ishikyoo/memora/api/asset/InMemoryPackMetadataAsset.java:61-63 | the pack section's description; `PackMetadatas.Of` and `PackMetadatas.WithDescription` state what it reads after each builder |
| `PackMetadataAssets.WithType` | src/main/java/com/ishikyoo/memora/api/asset/InMemoryPackMetadataAsset.java:73-80 | the same asset for the same type; otherwise the new type's pack format, the description kept, supported formats dropped, all else unchanged |
| `PackMetadataAssets.WithFeature` | src/main/java/com/ishikyoo/memora/api/asset/InMemoryPackMetadataAsset.java:82-87 | a set add: no change when present, else exactly that feature added (at the end of the list, see Left out on order); nothing else changes |
| `PackMetadataAssets.WithDescription` | src/main/java/com/ishikyoo/memora/api/asset/InMemoryPackMetadataAsset.java:89-96 | only the description changes; the pack format and supported formats are kept |
| `PackMetadataAssets.WithFilter` | src/main/java/com/ishikyoo/memora/api/asset/InMemoryPackMetadataAsset.java:98-103 | a set add: no change when present, else exactly that pattern added (at the end of the list, see Left out on order); nothing else changes |
| `PackMetadataAssets.WithLanguage` | src/main/java/com/ishikyoo/memora/api/asset/InMemoryPackMetadataAsset.java:105-110 | as written: no change when neither the code nor the info is present; otherwise the code maps to the info; other codes keep their entries |
| `PackMetadataAssets.WithLanguageIntended` | src/main/java/com/ishikyoo/memora/api/asset/InMemoryPackMetadataAsset.java:107-109 | corrected: the code maps to the info afterwards, no change when it already did, other codes and other fields unchanged |
| `PackMetadataAssets.WithLanguageOnEmptyIsNoOp` | src/main/java/com/ishikyoo/memora/api/asset/InMemoryPackMetadataAsset.java:106 | as written, adding a language to an asset that has none changes nothing |
| `PackMetadataAssets.WithLanguageIntendedOnEmptyAdds` | src/main/java/com/ishikyoo/memora/api/asset/InMemoryPackMetadataAsset.java:107-109 | the corrected builder adds it |
| `PackMetadataAssets.EncodeFeaturesSection` | src/main/java/com/ishikyoo/memora/api/asset/InMemoryPackMetadataAsset.java:142-153 | the loop builds exactly the section the specification function gives: none for no features, else `{"enabled": [ids]}` |
| `PackMetadataAssets.FeatureItemsRoundTrip` | src/main/java/com/ishikyoo/memora/api/asset/InMemoryPackMetadataAsset.java:146-150 | the feature ids read back from the `enabled` list |
| `PackMetadataAssets.FeaturesSection` | src/main/java/com/ishikyoo/memora/api/asset/InMemoryPackMetadataAsset.java:142-153 | absent exactly when there are no features, otherwise an object with the one member `enabled`; `EncodeFeaturesSection` computes it and `FeatureItemsRoundTrip` reads the identifiers back |
| `PackMetadataAssets.LanguagesSection` | src/main/java/com/ishikyoo/memora/api/asset/InMemoryPackMetadataAsset.java:175-186 | absent exactly when there are no languages, otherwise an object keyed by the language codes in insertion order, each holding its info's encoding |
| `PackMetadataAssets.DocumentNames` | src/main/java/com/ishikyoo/memora/api/asset/InMemoryPackMetadataAsset.java:122-129 | the root object lists pack, features, filter, overlays, language in that order, each only when its encoder gave a value |
| `PackMetadataAssets.DocumentMember` | src/main/java/com/ishikyoo/memora/api/asset/InMemoryPackMetadataAsset.java:123-128 | each section name finds exactly that encoder's value |
| `PackMetadataAssets.MetaJsonSections` | src/main/java/com/ishikyoo/memora/api/asset/InMemoryPackMetadataAsset.java:112-130 | `features` is present iff there are features, `language` iff there are languages, `pack` always |
| `PackMetadataAssets.OfSections` | src/main/java/com/ishikyoo/memora/api/asset/InMemoryPackMetadataAsset.java:112-130 | a fresh asset's JSON has just pack, filter and overlays |
| `PackMetadataAssets.MetaJson` | src/main/java/com/ishikyoo/memora/api/asset/InMemoryPackMetadataAsset.java:112-130 | specified by `MetaJsonSections`, `DocumentNames` and `DocumentMember`: the sections in the order `pack`, `features`, `filter`, `overlays`, `language`, each present when its encoder produced one |
| `PackMetadataAssets.LanguagesEqualIsLookup` | src/main/java/com/ishikyoo/memora/api/asset/InMemoryPackMetadataAsset.java:198 | the languages part of `equals` holds iff every code looks up the same info on both sides |
| `PackMetadataAssets.MetaEquals` | src/main/java/com/ishikyoo/memora/api/asset/InMemoryPackMetadataAsset.java:188-199 | every field, collections as sets and languages as a map; specified by `LanguagesEqualIsLookup` and `WithFeatureCommutes` |
| `PackMetadataAssets.WithFeatureCommutes` | src/main/java/com/ishikyoo/memora/api/asset/InMemoryPackMetadataAsset.java:82-87 | adding two features in either order gives equal assets, and adding one twice is adding it once |
| `PackMetadatas.Of` | src/main/java/com/ishikyoo/memora/api/InMemoryPackMetadata.java:32-46 | stores id, title, source and config; type and description read back; the asset has the metadata key and no features or languages |
| `PackMetadatas.AssetLocation` | src/main/java/com/ishikyoo/memora/api/InMemoryPack.java:20-22 | the metadata document sits at `root:pack.mcmeta` |
| `PackMetadatas.Type` | src/main/java/com/ishikyoo/memora/api/InMemoryPackMetadata.java:52-54 | read from the document; `Of`, `WithType` and `WithDescription` state what it returns after each builder |
| `PackMetadatas.Description` | src/main/java/com/ishikyoo/memora/api/InMemoryPackMetadata.java:68-70 | read from the document; `Of`, `WithDescription` and `WithType` state what it returns after each builder |
| `PackMetadatas.WithId` | src/main/java/com/ishikyoo/memora/api/InMemoryPackMetadata.java:84-86 | only the id changes |
| `PackMetadatas.WithTitle` | src/main/java/com/ishikyoo/memora/api/InMemoryPackMetadata.java:88-90 | only the title changes |
| `PackMetadatas.WithType` | src/main/java/com/ishikyoo/memora/api/InMemoryPackMetadata.java:92-94 | `withType(t).type() == t`, the description is kept, and only the asset changes |
| `PackMetadatas.WithSource` | src/main/java/com/ishikyoo/memora/api/InMemoryPackMetadata.java:96-98 | only the source changes |
| `PackMetadatas.WithConfig` | src/main/java/com/ishikyoo/memora/api/InMemoryPackMetadata.java:100-102 | only the config changes |
| `PackMetadatas.WithDescription` | src/main/java/com/ishikyoo/memora/api/InMemoryPackMetadata.java:104-106 | the description reads back, the type is kept, and only the asset changes |
| `PackMetadatas.WithFeature` | src/main/java/com/ishikyoo/memora/api/InMemoryPackMetadata.java:108-110 | the feature is present afterwards and only the asset changes, by the asset's `withFeature` |
| `PackMetadatas.WithFilter` | src/main/java/com/ishikyoo/memora/api/InMemoryPackMetadata.java:112-114 | the pattern is present afterwards and only the asset changes, by the asset's `withFilter` |
| `PackMetadatas.WithLanguage` | src/main/java/com/ishikyoo/memora/api/InMemoryPackMetadata.java:116-118 | only the asset changes, by the asset's `withLanguage` as written: a metadata without languages is left as it is, a code already present maps to the info, other codes keep their entries |
| `PackMetadatas.WithLanguageIntended` | src/main/java/com/ishikyoo/memora/api/InMemoryPackMetadata.java:116-118 | the same call through the corrected `withLanguage`: the code maps to the info afterwards, other codes keep their entries |
| `PackResources.NamespaceInUse` | src/main/java/com/ishikyoo/memora/internal/InMemoryPackResources.java:126-129 | a namespace has a count entry iff at least one stored location is in it |
| `PackResources.CountsAdd` | src/main/java/com/ishikyoo/memora/internal/InMemoryPackResources.java:169-176 | adding a location raises its namespace's count by one, starting at 1 |
| `PackResources.CountsRemove` | src/main/java/com/ishikyoo/memora/internal/InMemoryPackResources.java:178-186 | removing a location lowers its namespace's count by one and drops the entry at 1 |
| `PackResources.ListedIsChild` | src/main/java/com/ishikyoo/memora/internal/InMemoryPackResources.java:116-121 | a location is listed iff it is in the namespace, its path starts with `path/` (or anything when `path` is empty), and the rest has no `/` |
| `PackResources.ListStep` | src/main/java/com/ishikyoo/memora/internal/InMemoryPackResources.java:117-123 | one visit of the loop keeps "reported so far = listed among the visited" |
| `PackResources.JoinExamples` | src/main/java/com/ishikyoo/memora/internal/InMemoryPackResources.java:101 | `String.join("/", …)` on one, three and no segments |
| `PackResources.Join` | src/main/java/com/ishikyoo/memora/internal/InMemoryPackResources.java:101 | `String.join`; specified by `JoinExamples` and used by `Store.GetRootResource` |
| `PackResources.Store.constructor` | src/main/java/com/ishikyoo/memora/internal/InMemoryPackResources.java:55-58 | an empty store of that type and info, with the invariant |
| `PackResources.Store.AddResource` | src/main/java/com/ishikyoo/memora/internal/InMemoryPackResources.java:60-69 | a present location gives nothing and changes nothing; a new one is stored, its namespace count goes up, and the bytes come back; the invariant holds |
| `PackResources.Store.RemoveResource` | src/main/java/com/ishikyoo/memora/internal/InMemoryPackResources.java:71-80 | an absent location gives nothing and changes nothing; a present one is removed, its namespace count goes down, and its bytes come back; the invariant holds |
| `PackResources.Store.AddNamespace` | src/main/java/com/ishikyoo/memora/internal/InMemoryPackResources.java:169-176 | the count becomes 1 for a new namespace and goes up by one otherwise |
| `PackResources.Store.RemoveNamespace` | src/main/java/com/ishikyoo/memora/internal/InMemoryPackResources.java:178-186 | no change for an unknown namespace; above 1 the count goes down by one; at 1 or below the entry is removed |
| `PackResources.Store.GetResource` | src/main/java/com/ishikyoo/memora/internal/InMemoryPackResources.java:82-85 | present iff the location is stored, with its bytes |
| `PackResources.Store.GetMetadataResource` | src/main/java/com/ishikyoo/memora/internal/InMemoryPackResources.java:87-89 | the resource at `root:pack.mcmeta`, if any |
| `PackResources.Store.ContainsResource` | src/main/java/com/ishikyoo/memora/internal/InMemoryPackResources.java:91-93 | true exactly when `getResource` finds a resource at the location |
| `PackResources.Store.ContainsMetadata` | src/main/java/com/ishikyoo/memora/internal/InMemoryPackResources.java:95-97 | true exactly when `getMetadataResource` finds one |
| `PackResources.Store.GetRootResource` | src/main/java/com/ishikyoo/memora/internal/InMemoryPackResources.java:99-104 | the resource in `root` at the segments joined by `/`, if any |
| `PackResources.Store.GetTypedResource` | src/main/java/com/ishikyoo/memora/internal/InMemoryPackResources.java:106-111 | nothing for another pack type; otherwise the stored bytes, if any |
| `PackResources.Store.ListResources` | src/main/java/com/ishikyoo/memora/internal/InMemoryPackResources.java:113-124 | nothing for another pack type; otherwise the reported locations are exactly the listed ones, each once, each with its stored bytes |
| `PackResources.Store.GetNamespaces` | src/main/java/com/ishikyoo/memora/internal/InMemoryPackResources.java:126-129 | exactly the namespaces of the stored locations |
| `PackResources.Store.GetResourcesCount` | src/main/java/com/ishikyoo/memora/internal/InMemoryPackResources.java:156-158 | the number of stored locations |
| `PackResources.Store.GetNamespaceCountAsWritten` | src/main/java/com/ishikyoo/memora/internal/InMemoryPackResources.java:160-163 | as written: 0 for a namespace in use, and a failure (unboxing a missing count) for any other |
| `PackResources.Store.GetNamespaceCount` | src/main/java/com/ishikyoo/memora/internal/InMemoryPackResources.java:161-162 | corrected: the number of stored locations in the namespace |
| `PackResources.Store.GetRootResourcesCount` | src/main/java/com/ishikyoo/memora/internal/InMemoryPackResources.java:165-167 | as written, through the inverted count: succeeds iff the root namespace is in use, and then gives 0 |
| `PackResources.Store.GetRootResourcesCountIntended` | src/main/java/com/ishikyoo/memora/internal/InMemoryPackResources.java:165-167 | through the corrected count: the number of stored locations in `root` |
| `PackResources.RootCountAsWritten` | src/main/java/com/ishikyoo/memora/internal/InMemoryPackResources.java:161-167 | as written, the root count succeeds exactly when the root namespace holds a resource, and then reports 0 instead of that number |
| `PackResources.CountOfUsedNamespaceIsZero` | src/main/java/com/ishikyoo/memora/internal/InMemoryPackResources.java:161 | as written, a namespace holding a resource is counted 0, while it holds at least one |
| `InternalPacks.InternalPack.constructor` | src/main/java/com/ishikyoo/memora/internal/InMemoryPack.java:30-37 | a new pack has an empty store of its type and info, and no base |
| `InternalPacks.InternalPack.Create` | src/main/java/com/ishikyoo/memora/internal/InMemoryPack.java:39-49 | warns iff a base was already built, and builds the base either way, from the metadata read back or the default metadata |
| `InternalPacks.InternalPack.AddResource` | src/main/java/com/ishikyoo/memora/internal/InMemoryPack.java:51-53 | exactly the store's add; the base is untouched |
| `InternalPacks.InternalPack.RemoveResource` | src/main/java/com/ishikyoo/memora/internal/InMemoryPack.java:55-57 | exactly the store's remove; the base is untouched |
| `InternalPacks.InternalPack.ContainsResource` | src/main/java/com/ishikyoo/memora/internal/InMemoryPack.java:59-61 | true exactly when the pack's own store finds a resource at the location |
| `InternalPacks.InternalPack.Open` | src/main/java/com/ishikyoo/memora/internal/InMemoryPack.java:75-77 | the pack's own store object |
| `InternalRepositories.Known` | src/main/java/com/ishikyoo/memora/internal/InMemoryPackRepository.java:58-62 | an id is kept iff it was asked for and is available |
| `InternalRepositories.Selection` | src/main/java/com/ishikyoo/memora/internal/InMemoryPackRepository.java:56-64 | specified by `SelectionKeys` (the known ids, each once, in first-request order) and `SelectionGet` (each maps to its available pack); `SetSelected` builds it |
| `InternalRepositories.SelectionKeys` | src/main/java/com/ishikyoo/memora/internal/InMemoryPackRepository.java:56-64 | the selection's ids are the available requested ids at their first occurrence |
| `InternalRepositories.SelectionGet` | src/main/java/com/ishikyoo/memora/internal/InMemoryPackRepository.java:59-61 | an id is selected iff requested and available, and then maps to the available pack |
| `InternalRepositories.InternalRepository.constructor` | src/main/java/com/ishikyoo/memora/internal/InMemoryPackRepository.java:11-12 | nothing available, nothing selected |
| `InternalRepositories.InternalRepository.AddPack` | src/main/java/com/ishikyoo/memora/internal/InMemoryPackRepository.java:14-21 | as written: a taken id changes nothing; a new one is stored; the result is empty either way |
| `InternalRepositories.InternalRepository.AddPackIntended` | src/main/java/com/ishikyoo/memora/internal/InMemoryPackRepository.java:19-20 | corrected: the same state change, and the added pack comes back on success |
| `InternalRepositories.InternalRepository.RemovePack` | src/main/java/com/ishikyoo/memora/internal/InMemoryPackRepository.java:23-26 | the id leaves the available packs, the selection is untouched, and the removed pack comes back if there was one |
| `InternalRepositories.InternalRepository.RemovePackOf` | src/main/java/com/ishikyoo/memora/internal/InMemoryPackRepository.java:28-30 | the same, by the pack's id |
| `InternalRepositories.InternalRepository.GetPack` | src/main/java/com/ishikyoo/memora/internal/InMemoryPackRepository.java:32-34 | present iff the id is available, with that pack |
| `InternalRepositories.InternalRepository.ContainsPack` | src/main/java/com/ishikyoo/memora/internal/InMemoryPackRepository.java:36-38 | true exactly when `getPack` finds a pack |
| `InternalRepositories.InternalRepository.AvailablePacks` | src/main/java/com/ishikyoo/memora/internal/InMemoryPackRepository.java:40-42 | every pack `getPack` finds, and nothing else |
| `InternalRepositories.InternalRepository.AvailableIds` | src/main/java/com/ishikyoo/memora/internal/InMemoryPackRepository.java:44-46 | exactly the ids `getPack` finds a pack for |
| `InternalRepositories.InternalRepository.SelectedPacks` | src/main/java/com/ishikyoo/memora/internal/InMemoryPackRepository.java:48-50 | one pack per selected id, each found in the selection under that id; `SelectedAfterSetSelected` adds that the i-th pack is the available pack of the i-th id |
| `InternalRepositories.InternalRepository.SelectedIds` | src/main/java/com/ishikyoo/memora/internal/InMemoryPackRepository.java:52-54 | one id per selection entry; `SelectedAfterSetSelected` states that after `setSelected` they are the known requested ids, each once, in first-request order |
| `InternalRepositories.InternalRepository.SetSelected` | src/main/java/com/ishikyoo/memora/internal/InMemoryPackRepository.java:56-64 | the available packs are kept and the selection becomes the ordered selection of the ids |
| `InternalRepositories.SelectedAfterSetSelected` | src/main/java/com/ishikyoo/memora/internal/InMemoryPackRepository.java:57-63 | after `setSelected`, the selected ids are the available requested ones in first-request order without repeats, and each maps to its available pack |
| `FacadePacks.HeldAssetIsEqual` | src/main/java/com/ishikyoo/memora/api/InMemoryPack.java:29 | in a well-formed pack, an asset that equals some value equals the one at its own location |
| `FacadePacks.Of` | src/main/java/com/ishikyoo/memora/api/InMemoryPack.java:20-22 | the pack holds the metadata and exactly its document, at the document's location |
| `FacadePacks.WithAsset` | src/main/java/com/ishikyoo/memora/api/InMemoryPack.java:28-33 | the same pack when the location is taken and the asset equals some value; otherwise only its location maps to it; the result always passes the guard, and well-formedness is kept |
| `FacadePacks.WithoutAsset` | src/main/java/com/ishikyoo/memora/api/InMemoryPack.java:35-40 | the same pack when nothing is there; otherwise exactly that location goes, and every other lookup is unchanged |
| `FacadePacks.WithoutAssetOf` | src/main/java/com/ishikyoo/memora/api/InMemoryPack.java:42-44 | `withoutAsset` at the asset's location |
| `FacadePacks.Lookup` | src/main/java/com/ishikyoo/memora/api/InMemoryPack.java:53-55 | present iff the location is held, with that asset |
| `FacadePacks.AssetObjects` | src/main/java/com/ishikyoo/memora/api/InMemoryPack.java:57-59 | every asset some location looks up, and nothing else |
| `FacadePacks.AssetOf` | src/main/java/com/ishikyoo/memora/api/InMemoryPack.java:46-51 | present iff the location is held and the asset there is exactly of the asked class; asking for an abstract class (InMemoryAsset, InMemoryTextAsset, InMemoryJSONAsset) never finds anything |
| `FacadePacks.WithoutUndoesPut` | src/main/java/com/ishikyoo/memora/api/InMemoryPack.java:30-39 | putting an asset and then removing its location is the same as removing it alone |
| `FacadeRepositories.Contents` | src/main/java/com/ishikyoo/memora/api/InMemoryPackRepository.java:38-41 | the store contents have the pack's locations, each with its asset's bytes |
| `FacadeRepositories.InfoOf` | src/main/java/com/ishikyoo/memora/api/InMemoryPackRepository.java:30-34 | the location info carries the metadata's id, title and source |
| `FacadeRepositories.Load` | src/main/java/com/ishikyoo/memora/api/InMemoryPackRepository.java:28-41 | a fresh game-side pack of the metadata's type, info and config, no base, and a store holding exactly the pack's contents; every asset has its bytes cached |
| `FacadeRepositories.LoadAsset` | src/main/java/com/ishikyoo/memora/api/InMemoryPackRepository.java:37-40 | one pass of that loop: the asset at the location gives its bytes, which the store then holds at that location on top of what earlier passes stored; the asset keeps its invariant and has its bytes cached |
| `FacadeRepositories.Register` | src/main/java/com/ishikyoo/memora/api/InMemoryPackRepository.java:27-45 | the game-side pack is loaded and built, then offered to the registry, which keeps it, fresh and mirroring the pack, unless the id is taken there; the selection is untouched; every asset has its bytes cached |
| `FacadeRepositories.FacadeRepository.constructor` | src/main/java/com/ishikyoo/memora/api/InMemoryPackRepository.java:16 | no packs, the given internal repository |
| `FacadeRepositories.FacadeRepository.AddPack` | src/main/java/com/ishikyoo/memora/api/InMemoryPackRepository.java:18-48 | a known id is refused: the packs, the registry and every asset of the pack (its caches included) are unchanged; otherwise the pack is stored under its id and returned, and a fresh built game-side pack mirroring it is registered unless the id is taken there; the selection is untouched |
| `FacadeRepositories.FacadeRepository.RemovePack` | src/main/java/com/ishikyoo/memora/api/InMemoryPackRepository.java:50-62 | an unknown id gives nothing and leaves the registry alone; a known one is removed here and from the registry's available packs, and returned |
| `FacadeRepositories.FacadeRepository.GetPack` | src/main/java/com/ishikyoo/memora/api/InMemoryPackRepository.java:64-67 | present iff the id is stored, with that pack |
| `FacadeRepositories.FacadeRepository.GetPacks` | src/main/java/com/ishikyoo/memora/api/InMemoryPackRepository.java:69-71 | every pack `getPack` finds, and nothing else |

## Left out

- Exceptions are results: an invalid key part, a weight below 1 and a path without `.` give `Err`. The `RuntimeException` wrapping in `bytes()` and `text()` has no counterpart, because no conversion in the model fails.
- Gson pretty-printing is not modelled. `Json.Render` is a compact renderer that stands in for it; only the tree is specified.
- The host's codecs are not modelled: `PackMetadataSection`, the filter and overlay sections, and the language map. The pack section, patterns, overlays and language entries are plain data with stand-in encoders. The filter and overlays sections are therefore always emitted, as the source does when its codecs succeed.
- `SharedConstants.packVersion` is a parameter (`GameVersion`).
- `Pack.readPackMetadata` is a parameter (`read`), so `create()` takes what it read back as an argument.
- `ResourceLocation` validation is modelled by character classes. `getRootResource` and `withPath` do not re-validate in the model.
- Logging is a no-op, except that `create()` reports whether it would warn.
- The global `Memora.repository` singleton is a field of the public repository.
- `InMemoryResource` streams and the `Supplier` are not modelled. A resource is its bytes, and `open()` returns the store itself.
- `getMetadataSection` parsing is not modelled. `packId`, `location()`, `close()`, `hashCode` and `toString` of assets are not modelled either.
- `getNamespaces` ignores its pack-type parameter, as the source does.
- HashMap and HashSet iteration order is not modelled. Where order shows (the store listing, the façade loop), the contracts are stated order-free.
- The pack metadata's features, filters and overlays (HashSet in the source) and its languages (HashMap) are kept in insertion order. The source emits them in hash order, so the order of the entries inside the `features`, `filter`, `overlays` and `language` JSON lists is not the source's; which entries appear is.
- DecodeEncode: `Utf8.DecodeEncode` holds for text made of Unicode scalar values. A Java string may hold unpaired UTF-16 surrogates, which `getBytes(UTF_8)` replaces by `?`; for such strings the round trip fails in the source and is not modelled.
- EncodeInjective: `Utf8.EncodeInjective` is stated over Unicode scalar values. Java strings that differ only in unpaired surrogates (and `?` in their place) encode to the same bytes; this is not modelled.
- ToBytesDecodes: `Assets.ToBytesDecodes` holds for text bodies of Unicode scalar values only. A body holding an unpaired surrogate would come back with `?` in the source, and `text()` would then differ from the text given; this is not modelled.
- `clampDegrees(-10)` is 0, as the code computes. Rounding of `n/90f` is done in integers, which is exact for every angle in [0, 360).
- `InternalPacks.InternalPack.Create` builds `base` again on a second call; it only warns.
- `InternalRepositories.InternalRepository.RemovePack` keeps the removed pack in `selected`, as the code does.
- `FacadePacks.Of` wraps the metadata document in a fresh asset object. The identity of `metadata.asset()` and any cache it shares with other holders are not modelled.
- Block-state and metadata builders are values, so "returns `this`" and "returns an equal copy" are the same thing in the model.
- `Keys.OfLocationRoundTrip` requires a suffix without `.`. `Key.of(location)` splits at the last dot, and `Keys.OfLocationMovesDottedSuffix` shows the failure for other suffixes.
- `Keys.OfLocationRejoin` excludes a path whose last `/` is at its start. `Key.of(location)` then drops that `/`.
- Byte arrays are constants (`Assets.ByteArray.data` is a `const`). In the source one mutable `byte[]` is shared, uncopied, by the caller of `InMemoryRawAsset.of`/`withData`, the raw asset and its `withLocation` copies, the asset's byte cache, and the store's resource. A write into that array by any holder would show through all of them; that sharing of a mutable array is not modelled.
- `FacadePacks.AssetObjects`, `FacadeRepositories.FacadeRepository.GetPacks`, `InternalRepositories.InternalRepository.AvailablePacks`: the `values()` collections are sets here, so an object held under two keys appears once; the unmodifiable view wrapping them is not modelled.
- Asset equality before the caches are filled is not treated as a bug. `Assets.UncachedTextAssetsEqual` and `Assets.EqualsAsymmetric` state what the code does.

## Findings

| source | as written | input that shows it | evidently intended | confidence | as-written member | corrected member |
|---|---|---|---|---|---|---|
| src/main/java/com/ishikyoo/memora/api/asset/InMemoryBlockStateAsset.java:37 | returns `this` when the key is present and the variant equals any value in the map | variants `a→v1, b→v2`, then `withVariant("a", v2)` leaves `a→v1` (`BlockStates.WithVariantKeepsStaleValue`) | no-op only when the key already maps to an equal variant | high, not executed | `BlockStates.WithVariant` | `BlockStates.WithVariantIntended` |
| src/main/java/com/ishikyoo/memora/api/asset/InMemoryPackMetadataAsset.java:106 | returns `this` when neither the code nor the info is present | an asset with no languages: `withLanguage("en_us", info)` changes nothing (`PackMetadataAssets.WithLanguageOnEmptyIsNoOp`) | no-op only when the code already maps to an equal info; `InMemoryPackMetadata.withLanguage` delegates to it (`PackMetadatas.WithLanguage` as written, `PackMetadatas.WithLanguageIntended` corrected) | high, not executed | `PackMetadataAssets.WithLanguage` | `PackMetadataAssets.WithLanguageIntended` |
| src/main/java/com/ishikyoo/memora/internal/InMemoryPackResources.java:161 | returns 0 when the namespace is present, and unboxes a missing count otherwise | a store holding `root:pack.mcmeta`: the count of `root` is 0 (`PackResources.CountOfUsedNamespaceIsZero`); any unused namespace fails | the count when present, 0 when absent; `getRootResourcesCount` goes through it (`PackResources.Store.GetRootResourcesCount` as written, `PackResources.Store.GetRootResourcesCountIntended` corrected) | high, not executed | `PackResources.Store.GetNamespaceCountAsWritten` | `PackResources.Store.GetNamespaceCount` |
| src/main/java/com/ishikyoo/memora/internal/InMemoryPackRepository.java:19-20 | returns what `put` returned, the previous value, which is always absent there | adding a pack with a new id returns empty (the `r == None` ensures of the as-written member) | the added pack on success | medium, not executed | `InternalRepositories.InternalRepository.AddPack` | `InternalRepositories.InternalRepository.AddPackIntended` |
