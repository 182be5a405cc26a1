/** The asset objects (InMemoryAsset and its subclasses): a key, what the
    asset holds, and two caches the object fills on first use, the location
    and the bytes. The raw asset starts with its bytes cached; a text asset
    (raw text, block state, pack metadata) starts without and encodes its text
    as UTF-8 the first time its bytes are asked for. */
module Assets {
  import opened Wrappers
  import Keys
  import Utf8
  import Json
  import BlockStates
  import PackMetadataAssets

  /** A Java `byte[]`: an object with its own identity, passed around without
      copying. Its contents are a constant here: the core never writes into an
      array, and writes by other holders of the same array are not modelled. */
  class ByteArray {
    const data: seq<Utf8.Byte>

    constructor (data: seq<Utf8.Byte>)
      ensures this.data == data
    {
      this.data := data;
    }
  }

  /** The concrete class of an asset and what it holds. */
  datatype Body =
    | Raw(data: ByteArray)
    | RawText(text: string)
    | BlockState(doc: BlockStates.BlockState)
    | PackMetadata(meta: PackMetadataAssets.MetaAsset)

  /** A class an asset may be asked for by: the four concrete classes, and the
      abstract InMemoryAsset, InMemoryTextAsset and InMemoryJSONAsset. */
  datatype Kind =
    | RawKind | RawTextKind | BlockStateKind | PackMetadataKind
    | AssetKind | TextAssetKind | JsonAssetKind

  /** An abstract class: no asset has it as its runtime class. */
  predicate IsAbstract(k: Kind)
  {
    k.AssetKind? || k.TextAssetKind? || k.JsonAssetKind?
  }

  /** The runtime class of an asset: always a concrete one. */
  function KindOf(b: Body): (r: Kind)
    ensures !IsAbstract(r)
    ensures r.RawKind? <==> b.Raw?
  {
    match b
    case Raw(_) => RawKind
    case RawText(_) => RawTextKind
    case BlockState(_) => BlockStateKind
    case PackMetadata(_) => PackMetadataKind
  }

  /** toText of a text asset: the stored text, or the JSON tree rendered. */
  function ToText(b: Body): string
    requires !b.Raw?
  {
    match b
    case RawText(t) => t
    case BlockState(doc) => Json.Render(BlockStates.DocJson(doc))
    case PackMetadata(meta) => Json.Render(PackMetadataAssets.MetaJson(meta))
  }

  /** toBytes: the raw asset's own array; a text asset's text in UTF-8. */
  function ToBytes(b: Body): (r: seq<Utf8.Byte>)
    ensures !b.Raw? ==> |ToText(b)| <= |r| <= 4 * |ToText(b)|
  {
    if b.Raw? then b.data.data else Utf8.Encode(ToText(b))
  }

  /** A text asset's bytes determine its text. */
  lemma ToBytesDecodes(b: Body)
    requires !b.Raw?
    ensures Utf8.Decode(ToBytes(b)) == Some(ToText(b))
  {
    Utf8.DecodeEncode(ToText(b));
  }

  /** The key a structured body carries is the asset's key. */
  predicate Consistent(key: Keys.Key, b: Body)
  {
    (b.BlockState? ==> b.doc.key == key) && (b.PackMetadata? ==> b.meta.key == key)
  }

  /** Arrays.equals: two absent arrays are equal, an absent and a present one
      are not, two present ones are equal when their contents are. */
  predicate ArraysEqual(a: ByteArray?, b: ByteArray?)
  {
    if a == null || b == null then a == b else a.data == b.data
  }

  class Asset {
    const key: Keys.Key
    const body: Body
    /** The location cache. */
    var location: Option<Keys.Location>
    /** The bytes cache. */
    var bytes: ByteArray?
    /** How many times toBytes has run. */
    ghost var conversions: nat

    ghost predicate Valid()
      reads this
    {
      Consistent(key, body)
      && (location.Some? ==> location.value == Keys.LocationOf(key))
      && (bytes != null ==> bytes.data == ToBytes(body))
      && (body.Raw? ==> bytes == body.data && conversions == 0)
      && conversions <= 1
      && (bytes == null ==> conversions == 0)
      && (!body.Raw? && bytes != null ==> conversions == 1)
    }

    /** The protected constructor: a raw asset caches its array from the
        start, a text asset caches nothing. */
    constructor (key: Keys.Key, body: Body)
      requires Consistent(key, body)
      ensures Valid()
      ensures this.key == key && this.body == body && location == None
      ensures bytes == (if body.Raw? then body.data else null)
      ensures conversions == 0
    {
      this.key := key;
      this.body := body;
      location := None;
      bytes := if body.Raw? then body.data else null;
      conversions := 0;
    }

    /** location(): computed from the key once, then served from the cache. */
    method Location() returns (l: Keys.Location)
      requires Valid()
      modifies this
      ensures Valid()
      ensures l == Keys.LocationOf(key) && location == Some(l)
      ensures bytes == old(bytes) && conversions == old(conversions)
    {
      if location.None? {
        location := Some(Keys.LocationOf(key));
      }
      l := location.value;
    }

    /** bytes(): toBytes runs only when nothing is cached, and at most once
        over the object's life; afterwards the same array comes back. */
    method Bytes() returns (b: ByteArray)
      requires Valid()
      modifies this
      ensures Valid()
      ensures b.data == ToBytes(body) && bytes == b
      ensures old(bytes) != null ==> b == old(bytes) && conversions == old(conversions)
      ensures old(bytes) == null ==> fresh(b) && conversions == old(conversions) + 1
      ensures conversions == 1 || body.Raw?
      ensures location == old(location)
    {
      if bytes == null {
        bytes := new ByteArray(ToBytes(body));
        conversions := conversions + 1;
      }
      b := bytes;
    }

    /** text(): toText unchanged. Its UTF-8 encoding is what toBytes gives,
        which holds by the definition of `ToBytes`; the content is that those
        bytes decode back to it. */
    function Text(): (r: string)
      requires !body.Raw?
      ensures Utf8.Encode(r) == ToBytes(body)
      ensures Utf8.Decode(ToBytes(body)) == Some(r)
    {
      ToBytesDecodes(body);
      ToText(body)
    }

    /** equals: the same object; for a pack metadata asset, its own structural
        comparison against another pack metadata asset; for every other asset,
        the keys and the byte caches as they stand, whether filled or not. */
    predicate Equals(that: Asset)
      reads this, that
    {
      if this == that then true
      else if body.PackMetadata? then
        that.body.PackMetadata? && PackMetadataAssets.MetaEquals(body.meta, that.body.meta)
      else key == that.key && ArraysEqual(bytes, that.bytes)
    }

    /** InMemoryRawAsset.of, an instance method whose receiver plays no part:
        a fresh raw asset under the key read from the location. */
    method RawOf(l: Keys.Location, data: ByteArray) returns (r: Result<Asset, Keys.KeyError>)
      requires body.Raw?
      ensures r.Err? <==> Keys.OfLocation(l).Err?
      ensures r.Err? ==> r.error == Keys.OfLocation(l).error
      ensures r.Ok? ==> fresh(r.value) && r.value.Valid() && r.value.key == Keys.OfLocation(l).value
                        && r.value.body == Raw(data) && r.value.bytes == data && r.value.location == None
    {
      match Keys.OfLocation(l)
      case Err(e) =>
        r := Err(e);
      case Ok(k) =>
        var a := new Asset(k, Raw(data));
        r := Ok(a);
    }

    /** withLocation of a raw or raw text asset: this asset when the location
        is its own; otherwise a fresh asset with the new key and the same
        contents (a raw asset passes on its very array). */
    method WithLocation(l: Keys.Location) returns (r: Result<Asset, Keys.KeyError>)
      requires Valid() && (body.Raw? || body.RawText?)
      modifies this
      ensures Valid() && bytes == old(bytes) && conversions == old(conversions)
      ensures location == Some(Keys.LocationOf(key))
      ensures l == Keys.LocationOf(key) ==> r == Ok(this)
      ensures l != Keys.LocationOf(key) ==>
                (r.Err? <==> Keys.OfLocation(l).Err?)
                && (r.Err? ==> r.error == Keys.OfLocation(l).error)
                && (r.Ok? ==> fresh(r.value) && r.value.Valid() && r.value.key == Keys.OfLocation(l).value
                              && r.value.body == body
                              && r.value.bytes == (if body.Raw? then old(bytes) else null)
                              && r.value.location == None)
    {
      var current := Location();
      if l == current {
        return Ok(this);
      }
      match Keys.OfLocation(l)
      case Err(e) =>
        r := Err(e);
      case Ok(k) =>
        var a := new Asset(k, body);
        r := Ok(a);
    }

    /** withText of a raw text asset: this asset for the same text; otherwise
        a fresh asset, same key, new text, nothing cached. */
    method WithText(t: string) returns (r: Asset)
      requires body.RawText?
      ensures r.key == key && r.body == RawText(t)
      ensures t == body.text ==> r == this
      ensures t != body.text ==> fresh(r) && r.Valid() && r.bytes == null && r.location == None
    {
      if t == body.text {
        return this;
      }
      r := new Asset(key, RawText(t));
    }

    /** withData of a raw asset: this asset only when `data` is the very array
        it holds, whatever the contents of the two. */
    method WithData(data: ByteArray) returns (r: Asset)
      requires Valid() && body.Raw?
      modifies this
      ensures Valid() && bytes == old(bytes) && location == old(location)
      ensures data == old(bytes) ==> r == this
      ensures data != old(bytes) ==> fresh(r) && r.Valid() && r.key == key && r.body == Raw(data)
                                     && r.bytes == data && r.location == None
    {
      var current := Bytes();
      if data == current {
        return this;
      }
      r := new Asset(key, Raw(data));
    }
  }

  /** InMemoryRawTextAsset.of: the key read from the location, the text as
      given, nothing cached. */
  method RawTextOf(l: Keys.Location, text: string) returns (r: Result<Asset, Keys.KeyError>)
    ensures r.Err? <==> Keys.OfLocation(l).Err?
    ensures r.Err? ==> r.error == Keys.OfLocation(l).error
    ensures r.Ok? ==> fresh(r.value) && r.value.Valid() && r.value.key == Keys.OfLocation(l).value
                      && r.value.body == RawText(text) && r.value.bytes == null && r.value.location == None
  {
    match Keys.OfLocation(l)
    case Err(e) =>
      r := Err(e);
    case Ok(k) =>
      var a := new Asset(k, RawText(text));
      r := Ok(a);
  }

  /** A block state or pack metadata document as an asset object: its key is
      the document's own, nothing is cached yet. */
  method DocumentAsset(body: Body) returns (r: Asset)
    requires body.BlockState? || body.PackMetadata?
    ensures fresh(r) && r.Valid() && r.body == body && r.bytes == null && r.location == None
    ensures r.key == (if body.BlockState? then body.doc.key else body.meta.key)
  {
    var key := if body.BlockState? then body.doc.key else body.meta.key;
    r := new Asset(key, body);
  }

  /** Once both byte caches are filled, equality of two assets that are not
      pack metadata is equality of keys and of the bytes their bodies give. */
  lemma EqualsOnceCached(a: Asset, b: Asset)
    requires a.Valid() && b.Valid() && a.bytes != null && b.bytes != null
    requires !a.body.PackMetadata?
    ensures a.Equals(b) <==> a.key == b.key && ToBytes(a.body) == ToBytes(b.body)
  {
  }

  /** Before their bytes are computed, two text assets with the same key are
      equal, whatever their texts: the comparison looks at the caches, which
      are both empty. */
  lemma UncachedTextAssetsEqual(a: Asset, b: Asset)
    requires a.Valid() && b.Valid()
    requires a.body.RawText? && b.body.RawText? && a.body.text != b.body.text
    requires a.key == b.key && a.bytes == null && b.bytes == null
    ensures a.Equals(b) && a != b
    ensures ToBytes(a.body) != ToBytes(b.body)
  {
    Utf8.EncodeInjective(a.body.text, b.body.text);
  }

  /** Equality takes the receiver's side: a plain asset compares keys and
      caches even against a pack metadata asset, which in turn only ever
      equals another pack metadata asset. */
  lemma EqualsAsymmetric(a: Asset, b: Asset)
    requires a != b && a.body.RawText? && b.body.PackMetadata?
    requires a.key == b.key && a.bytes == null && b.bytes == null
    ensures a.Equals(b) && !b.Equals(a)
  {
  }
}
