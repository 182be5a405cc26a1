/** The in-memory resource store behind a pack (internal.InMemoryPackResources):
    resources by location, next to a count of resources per namespace that
    every add and remove keeps up to date by hand. A resource is modelled by
    its bytes; the stream opener around them is not part of this model. */
module PackResources {
  import opened Wrappers
  import Keys
  import Utf8
  import PackMetadataAssets

  type Bytes = seq<Utf8.Byte>

  /** The namespace of a pack's root files, and its metadata file. */
  const RootNamespace: string := "root"
  const PackMetaLocation: Keys.Location := Keys.Location(RootNamespace, "pack.mcmeta")

  /** PackLocationInfo, reduced to the fields the core reads. */
  datatype LocationInfo = LocationInfo(id: string, title: PackMetadataAssets.Component, source: string)

  /** The namespaces that occur among some locations. */
  function NamespacesOf(locs: set<Keys.Location>): set<string>
  {
    set l | l in locs :: l.namespace
  }

  /** How many of the locations lie in `ns`. */
  function CountIn(locs: set<Keys.Location>, ns: string): nat
  {
    |set l | l in locs && l.namespace == ns|
  }

  /** The count per namespace the store is meant to keep: exactly the
      namespaces in use, each with its number of locations. */
  function Counts(locs: set<Keys.Location>): map<string, int>
  {
    map ns | ns in NamespacesOf(locs) :: CountIn(locs, ns)
  }

  /** A namespace is in use exactly when it has at least one location. */
  lemma NamespaceInUse(locs: set<Keys.Location>, ns: string)
    ensures ns in NamespacesOf(locs) <==> CountIn(locs, ns) >= 1
  {
    var inNs := set l | l in locs && l.namespace == ns;
    if ns in NamespacesOf(locs) {
      var l :| l in locs && l.namespace == ns;
      assert l in inNs;
    }
    if CountIn(locs, ns) >= 1 {
      var l :| l in inNs;
    }
  }

  /** Adding a location adds one to its namespace's count, starting at 1. */
  lemma CountsAdd(locs: set<Keys.Location>, l: Keys.Location)
    requires l !in locs
    ensures var c := Counts(locs); var ns := l.namespace;
            Counts(locs + {l}) == c[ns := if ns in c then c[ns] + 1 else 1]
  {
    var c, ns := Counts(locs), l.namespace;
    var after := locs + {l};
    assert NamespacesOf(after) == NamespacesOf(locs) + {ns};
    assert (set m | m in after && m.namespace == ns) == (set m | m in locs && m.namespace == ns) + {l};
    NamespaceInUse(locs, ns);
    forall n | n != ns ensures CountIn(after, n) == CountIn(locs, n) {
      assert (set m | m in after && m.namespace == n) == (set m | m in locs && m.namespace == n);
    }
  }

  /** Removing a location takes one from its namespace's count, and drops the
      namespace when that was its last location. */
  lemma CountsRemove(locs: set<Keys.Location>, l: Keys.Location)
    requires l in locs
    ensures var c := Counts(locs); var ns := l.namespace;
            ns in c
            && Counts(locs - {l}) == if c[ns] > 1 then c[ns := c[ns] - 1] else c - {ns}
  {
    var c, ns := Counts(locs), l.namespace;
    var after := locs - {l};
    assert (set m | m in after && m.namespace == ns) == (set m | m in locs && m.namespace == ns) - {l};
    NamespaceInUse(locs, ns);
    NamespaceInUse(after, ns);
    forall n | n != ns ensures CountIn(after, n) == CountIn(locs, n) && (n in NamespacesOf(after) <==> n in NamespacesOf(locs)) {
      assert (set m | m in after && m.namespace == n) == (set m | m in locs && m.namespace == n);
      NamespaceInUse(locs, n);
      NamespaceInUse(after, n);
    }
  }

  /** The prefix listResources matches: the directory and a slash, or nothing
      for the top level. */
  function ListPrefix(path: string): string
  {
    if path == [] then [] else path + "/"
  }

  /** listResources' test: the location is in `ns`, directly inside `path`. */
  predicate Listed(l: Keys.Location, ns: string, path: string)
  {
    var prefix := ListPrefix(path);
    l.namespace == ns && prefix <= l.path && Keys.Absent(l.path[|prefix|..], '/')
  }

  /** A listing is one directory level deep: a location is listed exactly
      when its path is the prefix followed by a name without a slash. */
  lemma ListedIsChild(l: Keys.Location, ns: string, path: string)
    ensures Listed(l, ns, path) <==>
            l.namespace == ns && exists name :: l.path == ListPrefix(path) + name && Keys.Absent(name, '/')
  {
    var prefix := ListPrefix(path);
    if Listed(l, ns, path) {
      var name := l.path[|prefix|..];
      assert l.path == prefix + name;
    }
    if l.namespace == ns && exists name :: l.path == prefix + name && Keys.Absent(name, '/') {
      var name :| l.path == prefix + name && Keys.Absent(name, '/');
      assert prefix <= l.path;
      assert l.path[|prefix|..] == name;
    }
  }

  /** The locations a listing reported. */
  function Reported(output: seq<(Keys.Location, Bytes)>): set<Keys.Location>
  {
    set i | 0 <= i < |output| :: output[i].0
  }

  /** The locations among `locs` a listing of `path` in `ns` should report. */
  function ListedIn(locs: set<Keys.Location>, ns: string, path: string): set<Keys.Location>
  {
    set l | l in locs && Listed(l, ns, path)
  }

  lemma ReportedAppend(output: seq<(Keys.Location, Bytes)>, p: (Keys.Location, Bytes))
    ensures Reported(output + [p]) == Reported(output) + {p.0}
  {
    var after := output + [p];
    forall x | x in Reported(output) ensures x in Reported(after) {
      var i :| 0 <= i < |output| && output[i].0 == x;
      assert after[i].0 == x;
    }
    assert after[|output|].0 == p.0;
  }

  lemma ListedInAdd(locs: set<Keys.Location>, l: Keys.Location, ns: string, path: string)
    ensures ListedIn(locs + {l}, ns, path) == ListedIn(locs, ns, path) + (if Listed(l, ns, path) then {l} else {})
  {
  }

  /** One step of the listing keeps the reported locations equal to the
      listed ones among those visited. */
  lemma ListStep(output: seq<(Keys.Location, Bytes)>, done: set<Keys.Location>, l: Keys.Location, b: Bytes, ns: string, path: string)
    requires Reported(output) == ListedIn(done, ns, path)
    ensures Listed(l, ns, path) ==> Reported(output + [(l, b)]) == ListedIn(done + {l}, ns, path)
    ensures !Listed(l, ns, path) ==> Reported(output) == ListedIn(done + {l}, ns, path)
  {
    ReportedAppend(output, (l, b));
    ListedInAdd(done, l, ns, path);
  }

  /** String.join(sep, parts). */
  function Join(parts: seq<string>, sep: string): string
  {
    if parts == [] then []
    else if |parts| == 1 then parts[0]
    else parts[0] + sep + Join(parts[1..], sep)
  }

  /** A single segment is its own path, and a path of segments without
      slashes has a slash between each two. */
  lemma JoinExamples()
    ensures Join(["pack.png"], "/") == "pack.png"
    ensures Join(["a", "b", "c.txt"], "/") == "a/b/c.txt"
    ensures Join([], "/") == ""
  {
  }

  /** The failure of a count lookup on an absent namespace: the lookup yields
      null, and unboxing it throws. */
  datatype CountFailure = NullPointer

  class Store {
    const packType: PackMetadataAssets.PackType
    const info: LocationInfo
    var resources: map<Keys.Location, Bytes>
    var namespaces: map<string, int>

    /** The two maps agree: a namespace is counted exactly when it is in use,
        with its number of resources. */
    ghost predicate Valid()
      reads this
    {
      namespaces == Counts(resources.Keys)
    }

    constructor (t: PackMetadataAssets.PackType, info: LocationInfo)
      ensures Valid()
      ensures packType == t && this.info == info && resources == map[] && namespaces == map[]
    {
      packType := t;
      this.info := info;
      resources := map[];
      namespaces := map[];
    }

    /** addResource: refuses a location already present; otherwise stores the
        bytes and counts the location in its namespace. */
    method AddResource(l: Keys.Location, buffer: Bytes) returns (r: Option<Bytes>)
      requires Valid()
      modifies this
      ensures Valid()
      ensures l in old(resources) ==> r == None && resources == old(resources) && namespaces == old(namespaces)
      ensures l !in old(resources) ==> r == Some(buffer) && resources == old(resources)[l := buffer]
      ensures l !in old(resources) ==>
                namespaces[l.namespace] == (if l.namespace in old(namespaces) then old(namespaces)[l.namespace] + 1 else 1)
    {
      if l in resources {
        return None;
      }
      CountsAdd(resources.Keys, l);
      resources := resources[l := buffer];
      assert resources.Keys == old(resources).Keys + {l};
      AddNamespace(l.namespace);
      r := Some(buffer);
    }

    /** removeResource: nothing for an absent location; otherwise the bytes
        are removed and returned, and the namespace's count goes down by one,
        the namespace disappearing with its last resource. */
    method RemoveResource(l: Keys.Location) returns (r: Option<Bytes>)
      requires Valid()
      modifies this
      ensures Valid()
      ensures l !in old(resources) ==> r == None && resources == old(resources) && namespaces == old(namespaces)
      ensures l in old(resources) ==> r == Some(old(resources)[l]) && resources == old(resources) - {l}
      ensures l in old(resources) ==>
                var ns := l.namespace;
                ns in old(namespaces)
                && (old(namespaces)[ns] > 1 ==> namespaces == old(namespaces)[ns := old(namespaces)[ns] - 1])
                && (old(namespaces)[ns] <= 1 ==> namespaces == old(namespaces) - {ns})
    {
      if l !in resources {
        return None;
      }
      var removed := resources[l];
      CountsRemove(resources.Keys, l);
      resources := resources - {l};
      RemoveNamespace(l.namespace);
      r := Some(removed);
    }

    method AddNamespace(ns: string)
      modifies this
      ensures resources == old(resources)
      ensures namespaces == old(namespaces)[ns := if ns in old(namespaces) then old(namespaces)[ns] + 1 else 1]
    {
      if ns !in namespaces {
        namespaces := namespaces[ns := 1];
      } else {
        var count := namespaces[ns];
        namespaces := namespaces[ns := count + 1];
      }
    }

    method RemoveNamespace(ns: string)
      modifies this
      ensures resources == old(resources)
      ensures ns !in old(namespaces) ==> namespaces == old(namespaces)
      ensures ns in old(namespaces) && old(namespaces)[ns] > 1 ==> namespaces == old(namespaces)[ns := old(namespaces)[ns] - 1]
      ensures ns in old(namespaces) && old(namespaces)[ns] <= 1 ==> namespaces == old(namespaces) - {ns}
    {
      if ns !in namespaces {
        return;
      }
      var count := namespaces[ns];
      if count > 1 {
        namespaces := namespaces[ns := count - 1];
      } else {
        namespaces := namespaces - {ns};
      }
    }

    /** getResource(location): a plain lookup, empty for an absent location. */
    function GetResource(l: Keys.Location): (r: Option<Bytes>)
      reads this
      ensures r.Some? <==> l in resources
      ensures r.Some? ==> r.value == resources[l]
    {
      if l in resources then Some(resources[l]) else None
    }

    function GetMetadataResource(): (r: Option<Bytes>)
      reads this
      ensures r.Some? <==> PackMetaLocation in resources
    {
      GetResource(PackMetaLocation)
    }

    /** containsResource(l): exactly when getResource(l) finds one. */
    predicate ContainsResource(l: Keys.Location): (r: bool)
      reads this
      ensures r <==> GetResource(l).Some?
    {
      l in resources
    }

    /** containsMetadata(): exactly when getMetadataResource() finds one. */
    predicate ContainsMetadata(): (r: bool)
      reads this
      ensures r <==> GetMetadataResource().Some?
    {
      ContainsResource(PackMetaLocation)
    }

    /** getRootResource(segments): the root namespace, at the segments joined
        by slashes. */
    function GetRootResource(segments: seq<string>): (r: Option<Bytes>)
      reads this
      ensures r.Some? <==> Keys.Location(RootNamespace, Join(segments, "/")) in resources
      ensures r.Some? ==> r.value == resources[Keys.Location(RootNamespace, Join(segments, "/"))]
    {
      GetResource(Keys.Location(RootNamespace, Join(segments, "/")))
    }

    /** getResource(type, location): nothing for another pack type. */
    function GetTypedResource(t: PackMetadataAssets.PackType, l: Keys.Location): (r: Option<Bytes>)
      reads this
      ensures r.Some? <==> t == packType && l in resources
      ensures r.Some? ==> r.value == resources[l]
    {
      if t != packType then None else GetResource(l)
    }

    /** listResources: one pass over the resources, reporting each one that
        lies directly inside `path` in namespace `ns`; nothing for another
        pack type. The pass follows no particular order. */
    method ListResources(t: PackMetadataAssets.PackType, ns: string, path: string) returns (output: seq<(Keys.Location, Bytes)>)
      ensures t != packType ==> output == []
      ensures t == packType ==> Reported(output) == ListedIn(resources.Keys, ns, path)
      ensures forall i :: 0 <= i < |output| ==> output[i].0 in resources && output[i].1 == resources[output[i].0]
      ensures forall i, j :: 0 <= i < j < |output| ==> output[i].0 != output[j].0
    {
      output := [];
      if t != packType {
        return;
      }
      var remaining := resources.Keys;
      ghost var done: set<Keys.Location> := {};
      while remaining != {}
        invariant remaining !! done && remaining + done == resources.Keys
        invariant Reported(output) == ListedIn(done, ns, path)
        invariant forall i :: 0 <= i < |output| ==> output[i].0 in done && output[i].1 == resources[output[i].0]
        invariant forall i, j :: 0 <= i < j < |output| ==> output[i].0 != output[j].0
        decreases |remaining|
      {
        var l :| l in remaining;
        ListStep(output, done, l, resources[l], ns, path);
        if Listed(l, ns, path) {
          output := output + [(l, resources[l])];
        }
        remaining := remaining - {l};
        done := done + {l};
      }
    }

    /** getNamespaces: the counted namespaces, which are the ones in use. */
    function GetNamespaces(t: PackMetadataAssets.PackType): (r: set<string>)
      requires Valid()
      reads this
      ensures r == NamespacesOf(resources.Keys)
    {
      namespaces.Keys
    }

    /** getResourcesCount(): how many resources are stored. */
    function GetResourcesCount(): (r: nat)
      reads this
      ensures r == |resources.Keys|
    {
      |resources|
    }

    /** getResourcesCount(namespace), as written: the guard is the wrong way
        round, so a namespace in use gives 0 and an absent one fails. */
    function GetNamespaceCountAsWritten(ns: string): (r: Result<int, CountFailure>)
      reads this
      ensures r.Ok? <==> ns in namespaces
      ensures r.Ok? ==> r.value == 0
    {
      if ns in namespaces then Ok(0) else Err(NullPointer)
    }

    /** getResourcesCount(namespace), corrected: the namespace's number of
        resources, 0 for a namespace not in use. */
    function GetNamespaceCount(ns: string): (r: nat)
      requires Valid()
      reads this
      ensures r == CountIn(resources.Keys, ns)
    {
      NamespaceInUse(resources.Keys, ns);
      if ns in namespaces then namespaces[ns] else 0
    }

    /** getRootResourcesCount, as written: it goes through the inverted guard,
        so it fails while the root namespace is unused and gives 0 once it is. */
    function GetRootResourcesCount(): (r: Result<int, CountFailure>)
      reads this
      ensures r.Ok? <==> RootNamespace in namespaces
      ensures r.Ok? ==> r.value == 0
    {
      GetNamespaceCountAsWritten(RootNamespace)
    }

    /** getRootResourcesCount through the corrected count: the number of
        resources in the root namespace. */
    function GetRootResourcesCountIntended(): (r: nat)
      requires Valid()
      reads this
      ensures r == CountIn(resources.Keys, RootNamespace)
    {
      GetNamespaceCount(RootNamespace)
    }
  }

  /** As written, the root count succeeds exactly when the corrected count is
      positive, and then reports 0. */
  lemma RootCountAsWritten(s: Store)
    requires s.Valid()
    ensures s.GetRootResourcesCount().Ok? <==> s.GetRootResourcesCountIntended() >= 1
    ensures s.GetRootResourcesCount().Ok? ==> s.GetRootResourcesCount() == Ok(0)
  {
    NamespaceInUse(s.resources.Keys, RootNamespace);
  }

  /** As written, counting a namespace that holds a resource gives 0. */
  lemma CountOfUsedNamespaceIsZero(s: Store, l: Keys.Location)
    requires s.Valid() && l in s.resources
    ensures s.GetNamespaceCountAsWritten(l.namespace) == Ok(0)
    ensures s.GetNamespaceCount(l.namespace) >= 1
  {
    NamespaceInUse(s.resources.Keys, l.namespace);
  }
}
