/** Asset keys (InMemoryAsset.Key) and the host's namespaced identifiers
    (ResourceLocation, reduced to its namespace and path). A key has four parts
    and a canonical path `prefix/name.suffix`; a flat path is split back on its
    last `/` and the last `.` of its file name. */
module Keys {
  import opened Wrappers

  datatype Location = Location(namespace: string, path: string)

  /** The identifier's text `namespace:path`. */
  function LocationString(l: Location): string
  {
    l.namespace + ":" + l.path
  }

  /** The alphabet `[a-z0-9._-]` of namespaces, names and suffixes. */
  predicate IsNamespaceChar(c: char)
  {
    ('a' <= c <= 'z') || ('0' <= c <= '9') || c == '_' || c == '-' || c == '.'
  }

  /** The alphabet of paths and prefixes: the namespace alphabet and `/`. */
  predicate IsPathChar(c: char)
  {
    IsNamespaceChar(c) || c == '/'
  }

  predicate ValidNamespace(s: string)
  {
    forall i :: 0 <= i < |s| ==> IsNamespaceChar(s[i])
  }

  predicate ValidPath(s: string)
  {
    forall i :: 0 <= i < |s| ==> IsPathChar(s[i])
  }

  predicate ValidLocation(l: Location)
  {
    ValidNamespace(l.namespace) && ValidPath(l.path)
  }

  datatype Key = Key(namespace: string, prefix: string, name: string, suffix: string)

  /** The IllegalArgumentException of each component check, and the string
      index failure of splitting a file name that has no `.`. */
  datatype KeyError =
    | InvalidNamespace(namespace: string)
    | InvalidPrefix(prefix: string)
    | InvalidName(name: string)
    | InvalidSuffix(suffix: string)
    | MissingSuffix(path: string)

  predicate ValidKey(k: Key)
  {
    ValidNamespace(k.namespace) && ValidPath(k.prefix) && ValidNamespace(k.name) && ValidNamespace(k.suffix)
  }

  /** Key.of(namespace, prefix, name, suffix): checks the four parts in that
      order and reports the first one that is outside its alphabet. */
  function Of(namespace: string, prefix: string, name: string, suffix: string): (r: Result<Key, KeyError>)
    ensures r.Ok? <==> ValidKey(Key(namespace, prefix, name, suffix))
    ensures r.Ok? ==> r.value == Key(namespace, prefix, name, suffix)
    ensures !ValidNamespace(namespace) ==> r == Err(InvalidNamespace(namespace))
    ensures ValidNamespace(namespace) && !ValidPath(prefix) ==> r == Err(InvalidPrefix(prefix))
    ensures ValidNamespace(namespace) && ValidPath(prefix) && !ValidNamespace(name) ==> r == Err(InvalidName(name))
    ensures ValidNamespace(namespace) && ValidPath(prefix) && ValidNamespace(name) && !ValidNamespace(suffix)
            ==> r == Err(InvalidSuffix(suffix))
  {
    if !ValidNamespace(namespace) then Err(InvalidNamespace(namespace))
    else if !ValidPath(prefix) then Err(InvalidPrefix(prefix))
    else if !ValidNamespace(name) then Err(InvalidName(name))
    else if !ValidNamespace(suffix) then Err(InvalidSuffix(suffix))
    else Ok(Key(namespace, prefix, name, suffix))
  }

  /** The key's path: the prefix and a `/` unless the prefix is empty, then `name.suffix`. */
  function PathOf(k: Key): string
  {
    (if k.prefix == "" then "" else k.prefix + "/") + k.name + "." + k.suffix
  }

  /** Key.location(). */
  function LocationOf(k: Key): Location
  {
    Location(k.namespace, PathOf(k))
  }

  /** Key.toString(), built part by part as the source's StringBuilder does. */
  function ToString(k: Key): string
  {
    var withNamespace := k.namespace + ":";
    var withPrefix := if k.prefix == "" then withNamespace else withNamespace + k.prefix + "/";
    withPrefix + k.name + "." + k.suffix
  }

  /** `c` does not occur in `s`. */
  predicate Absent(s: string, c: char)
  {
    forall i :: 0 <= i < |s| ==> s[i] != c
  }

  /** String.lastIndexOf for one character: -1 when absent. */
  function LastIndexOf(s: string, c: char): (r: int)
    ensures -1 <= r < |s|
    ensures r >= 0 ==> s[r] == c
    ensures forall i :: r < i < |s| ==> s[i] != c
  {
    if s == [] then -1
    else if s[|s| - 1] == c then |s| - 1
    else LastIndexOf(s[..|s| - 1], c)
  }

  /** The text before the last `c` (empty when there is none) and the text
      after it (all of `s` when there is none). */
  function SplitAtLast(s: string, c: char): (string, string)
  {
    var i := LastIndexOf(s, c);
    if i == -1 then ("", s) else (s[..i], s[i + 1..])
  }

  /** Key.of(location): no validation; fails only when the file name has no
      `.`. The namespace is kept, the name and the suffix come from the file
      name after the last `/`, and the suffix is what follows its last `.`. */
  function OfLocation(l: Location): (r: Result<Key, KeyError>)
    ensures r.Err? ==> r.error == MissingSuffix(l.path)
    ensures r.Ok? ==> r.value.namespace == l.namespace
    ensures r.Ok? ==> Absent(r.value.name, '/') && Absent(r.value.suffix, '/') && Absent(r.value.suffix, '.')
  {
    var (prefix, filename) := SplitAtLast(l.path, '/');
    if LastIndexOf(filename, '.') == -1 then Err(MissingSuffix(l.path))
    else
      var (name, suffix) := SplitAtLast(filename, '.');
      FileNameAbsent(l.path);
      AbsentSlice(filename, '/', 0, LastIndexOf(filename, '.'));
      AbsentSlice(filename, '/', LastIndexOf(filename, '.') + 1, |filename|);
      SplitAtLastJoin(filename, '.');
      Ok(Key(l.namespace, prefix, name, suffix))
  }

  /** The file name after the last `/` of a path has no `/`. */
  lemma FileNameAbsent(path: string)
    ensures Absent(SplitAtLast(path, '/').1, '/')
  {
    SplitAtLastJoin(path, '/');
  }

  /** A slice of a text without `c` has no `c`. */
  lemma AbsentSlice(s: string, c: char, i: int, j: int)
    requires Absent(s, c) && 0 <= i <= j <= |s|
    ensures Absent(s[i..j], c)
  {
    forall k | 0 <= k < j - i ensures s[i..j][k] != c {
      assert s[i..j][k] == s[i + k];
    }
  }

  function WithNamespace(k: Key, namespace: string): (r: Result<Key, KeyError>)
    ensures r.Ok? <==> ValidNamespace(namespace)
    ensures r.Err? ==> r.error == InvalidNamespace(namespace)
    ensures r.Ok? ==> r.value.namespace == namespace && r.value.prefix == k.prefix
                      && r.value.name == k.name && r.value.suffix == k.suffix
  {
    if ValidNamespace(namespace) then Ok(k.(namespace := namespace)) else Err(InvalidNamespace(namespace))
  }

  function WithPrefix(k: Key, prefix: string): (r: Result<Key, KeyError>)
    ensures r.Ok? <==> ValidPath(prefix)
    ensures r.Err? ==> r.error == InvalidPrefix(prefix)
    ensures r.Ok? ==> r.value.namespace == k.namespace && r.value.prefix == prefix
                      && r.value.name == k.name && r.value.suffix == k.suffix
  {
    if ValidPath(prefix) then Ok(k.(prefix := prefix)) else Err(InvalidPrefix(prefix))
  }

  function WithName(k: Key, name: string): (r: Result<Key, KeyError>)
    ensures r.Ok? <==> ValidNamespace(name)
    ensures r.Err? ==> r.error == InvalidName(name)
    ensures r.Ok? ==> r.value.namespace == k.namespace && r.value.prefix == k.prefix
                      && r.value.name == name && r.value.suffix == k.suffix
  {
    if ValidNamespace(name) then Ok(k.(name := name)) else Err(InvalidName(name))
  }

  function WithSuffix(k: Key, suffix: string): (r: Result<Key, KeyError>)
    ensures r.Ok? <==> ValidNamespace(suffix)
    ensures r.Err? ==> r.error == InvalidSuffix(suffix)
    ensures r.Ok? ==> r.value.namespace == k.namespace && r.value.prefix == k.prefix
                      && r.value.name == k.name && r.value.suffix == suffix
  {
    if ValidNamespace(suffix) then Ok(k.(suffix := suffix)) else Err(InvalidSuffix(suffix))
  }

  /** String.indexOf for one character: -1 when absent. */
  function IndexOf(s: string, c: char): (r: int)
    ensures -1 <= r < |s|
    ensures r >= 0 ==> s[r] == c
    ensures forall i :: 0 <= i < |s| && (r == -1 || i < r) ==> s[i] != c
  {
    if s == [] then -1
    else if s[0] == c then 0
    else
      var r := IndexOf(s[1..], c);
      if r == -1 then -1 else r + 1
  }

  /** Reads an identifier back from its text: namespace up to the first `:`. */
  function ParseLocation(s: string): Option<Location>
  {
    var i := IndexOf(s, ':');
    if i == -1 then None else Some(Location(s[..i], s[i + 1..]))
  }

  // ---------------------------------------------------------------------------
  // Properties

  lemma LastIndexOfSplit(a: string, c: char, b: string)
    requires Absent(b, c)
    ensures LastIndexOf(a + [c] + b, c) == |a|
  {
    var s := a + [c] + b;
    var r := LastIndexOf(s, c);
    assert s[|a|] == c;
  }

  /** Splitting at the last `c` of `a c b`, where `b` has no `c`, gives `a` and `b`. */
  lemma SplitAtLastOf(a: string, c: char, b: string)
    requires Absent(b, c)
    ensures SplitAtLast(a + [c] + b, c) == (a, b)
  {
    var s := a + [c] + b;
    LastIndexOfSplit(a, c, b);
    assert s[..|a|] == a;
    assert s[|a| + 1..] == b;
  }

  lemma SplitAtLastAbsent(s: string, c: char)
    requires Absent(s, c)
    ensures SplitAtLast(s, c) == ("", s)
  {
  }

  /** The two halves of a split at a present `c` rejoin to the text, and the
      second half has no `c`. */
  lemma SplitAtLastJoin(s: string, c: char)
    ensures LastIndexOf(s, c) >= 0 ==> s == SplitAtLast(s, c).0 + [c] + SplitAtLast(s, c).1
    ensures Absent(SplitAtLast(s, c).1, c) || LastIndexOf(s, c) == -1
  {
    var i := LastIndexOf(s, c);
    if i >= 0 {
      assert s == s[..i] + [s[i]] + s[i + 1..];
      var b := s[i + 1..];
      forall j | 0 <= j < |b| ensures b[j] != c {
        assert b[j] == s[i + 1 + j];
      }
    }
  }

  /** The canonical path of a valid key is a valid identifier path, so the
      host never rejects a valid key's location. */
  lemma LocationOfValid(k: Key)
    requires ValidKey(k)
    ensures ValidLocation(LocationOf(k))
  {
    var p := PathOf(k);
    var head := if k.prefix == "" then "" else k.prefix + "/";
    assert p == head + k.name + "." + k.suffix;
    forall i | 0 <= i < |p| ensures IsPathChar(p[i]) {
      if i < |head| {
        if i < |k.prefix| { assert p[i] == k.prefix[i]; }
      } else if i < |head| + |k.name| {
        assert p[i] == k.name[i - |head|];
      } else if i > |head| + |k.name| {
        assert p[i] == k.suffix[i - |head| - |k.name| - 1];
      }
    }
  }

  /** Key.of(location) inverts Key.location() for every valid key whose suffix
      has no `.` (the last `.` of the file name is then the one `location()`
      inserted, and the last `/` is the one after the prefix). */
  lemma OfLocationRoundTrip(k: Key)
    requires ValidKey(k) && Absent(k.suffix, '.')
    ensures OfLocation(LocationOf(k)) == Ok(k)
  {
    var path := PathOf(k);
    var filename := k.name + ['.'] + k.suffix;
    assert Absent(filename, '/') by {
      forall i | 0 <= i < |filename| ensures filename[i] != '/' {
        if i < |k.name| { assert filename[i] == k.name[i]; }
        else if i > |k.name| { assert filename[i] == k.suffix[i - |k.name| - 1]; }
      }
    }
    if k.prefix == "" {
      assert path == filename;
      SplitAtLastAbsent(path, '/');
    } else {
      assert path == k.prefix + ['/'] + filename;
      SplitAtLastOf(k.prefix, '/', filename);
    }
    SplitAtLastOf(k.name, '.', k.suffix);
    LastIndexOfSplit(k.name, '.', k.suffix);
  }

  /** The suffix condition is needed: a valid key with a `.` in its suffix
      comes back with the text after its suffix's last `.` as the suffix. */
  lemma OfLocationMovesDottedSuffix()
    ensures ValidKey(Key("m", "", "n", "a.b"))
    ensures OfLocation(LocationOf(Key("m", "", "n", "a.b"))) == Ok(Key("m", "", "n.a", "b"))
  {
    var k := Key("m", "", "n", "a.b");
    var path := "n" + ['.'] + "a" + ['.'] + "b";
    assert PathOf(k) == path;
    assert Absent(path, '/') by {
      forall i | 0 <= i < 5 ensures path[i] != '/' {
        assert path[i] in {'n', '.', 'a', 'b'};
      }
    }
    SplitAtLastAbsent(path, '/');
    assert path == "n.a" + ['.'] + "b";
    SplitAtLastOf("n.a", '.', "b");
    LastIndexOfSplit("n.a", '.', "b");
  }

  /** Key.of(location) succeeds exactly when the file name (the path after its
      last `/`) contains a `.`. */
  lemma OfLocationSucceeds(l: Location)
    ensures OfLocation(l).Ok? <==> !Absent(SplitAtLast(l.path, '/').1, '.')
  {
    var filename := SplitAtLast(l.path, '/').1;
    var d := LastIndexOf(filename, '.');
    if d >= 0 {
      assert filename[d] == '.';
    }
  }

  lemma ValidPathChars(s: string, i: int, j: int)
    requires ValidPath(s) && 0 <= i <= j <= |s|
    ensures ValidPath(s[i..j])
  {
    forall k | 0 <= k < j - i ensures IsPathChar(s[i..j][k]) {
      assert s[i..j][k] == s[i + k];
    }
  }

  /** The key Key.of(location) derives from a valid identifier is a valid key,
      although Key.of(location) checks nothing. */
  lemma OfLocationValid(l: Location)
    requires ValidLocation(l) && OfLocation(l).Ok?
    ensures ValidKey(OfLocation(l).value)
  {
    PathPartsValid(l.path);
    FileNamePartsValid(SplitAtLast(l.path, '/').1);
  }

  /** Splitting a valid path on its last `/` gives a valid prefix and a file
      name without `/`. */
  lemma PathPartsValid(path: string)
    requires ValidPath(path)
    ensures ValidPath(SplitAtLast(path, '/').0)
    ensures ValidPath(SplitAtLast(path, '/').1) && Absent(SplitAtLast(path, '/').1, '/')
  {
    var s := LastIndexOf(path, '/');
    if s == -1 {
      assert SplitAtLast(path, '/').1 == path;
    } else {
      ValidPathChars(path, 0, s);
      ValidPathChars(path, s + 1, |path|);
    }
    SplitAtLastJoin(path, '/');
  }

  /** Splitting such a file name on its last `.` gives a name and a suffix in
      the namespace alphabet. */
  lemma FileNamePartsValid(filename: string)
    requires ValidPath(filename) && Absent(filename, '/')
    ensures ValidNamespace(SplitAtLast(filename, '.').0) && ValidNamespace(SplitAtLast(filename, '.').1)
  {
    var d := LastIndexOf(filename, '.');
    if d == -1 {
      NamespaceChars(filename, 0, |filename|);
    } else {
      NamespaceChars(filename, 0, d);
      NamespaceChars(filename, d + 1, |filename|);
    }
  }

  /** A slice of a valid path without `/` is in the namespace alphabet. */
  lemma NamespaceChars(s: string, i: int, j: int)
    requires ValidPath(s) && Absent(s, '/') && 0 <= i <= j <= |s|
    ensures ValidNamespace(s[i..j])
  {
    forall k | 0 <= k < j - i ensures IsNamespaceChar(s[i..j][k]) {
      assert s[i..j][k] == s[i + k];
    }
  }

  /** Rejoining the parts Key.of(location) split off gives back the original
      identifier, except when the path's only `/` is its first character:
      that slash is dropped (`a:/x.json` becomes `a:x.json`). */
  lemma OfLocationRejoin(l: Location)
    requires OfLocation(l).Ok?
    ensures LocationOf(OfLocation(l).value) == l <==> LastIndexOf(l.path, '/') != 0
  {
    var path := l.path;
    var s := LastIndexOf(path, '/');
    var (prefix, filename) := SplitAtLast(path, '/');
    var k := OfLocation(l).value;
    assert k.prefix == prefix;
    SplitAtLastJoin(filename, '.');
    assert filename == k.name + "." + k.suffix;
    assert PathOf(k) == (if prefix == "" then "" else prefix + "/") + filename;
    SplitAtLastJoin(path, '/');
    if s == -1 {
      assert PathOf(k) == path;
    } else if s == 0 {
      assert prefix == "";
      assert |PathOf(k)| < |path|;
    } else {
      assert |prefix| == s;
      assert PathOf(k) == path;
    }
  }

  /** The text of an identifier with a valid namespace reads back as that identifier. */
  lemma ParseLocationString(l: Location)
    requires ValidNamespace(l.namespace)
    ensures ParseLocation(LocationString(l)) == Some(l)
  {
    var s := LocationString(l);
    var n := |l.namespace|;
    assert s[n] == ':';
    forall i | 0 <= i < n ensures s[i] != ':' {
      assert s[i] == l.namespace[i];
      assert IsNamespaceChar(l.namespace[i]);
    }
    assert s[..n] == l.namespace;
    assert s[n + 1..] == l.path;
  }

  /** Key.toString() is the text of the key's location. */
  lemma ToStringIsLocationString(k: Key)
    ensures ToString(k) == LocationString(LocationOf(k))
  {
  }
  /** Dots are allowed in names and suffixes, so two different valid keys can
      have the same location and print the same text: `m:b.c.d` is both name
      `b.c` with suffix `d` and name `b` with suffix `c.d`. */
  lemma DottedKeysCollide()
    ensures var k1, k2 := Key("m", "", "b.c", "d"), Key("m", "", "b", "c.d");
            ValidKey(k1) && ValidKey(k2) && k1 != k2
            && LocationOf(k1) == LocationOf(k2) && ToString(k1) == ToString(k2)
  {
    var k1, k2 := Key("m", "", "b.c", "d"), Key("m", "", "b", "c.d");
    assert PathOf(k1) == "b.c.d" == PathOf(k2);
    assert k1.name != k2.name by {
      assert |k1.name| != |k2.name|;
    }
  }
}
