/** The block-state document builder (InMemoryBlockStateAsset): variants keyed
    by state string, weighted and rotated models, multipart rules guarded by
    property and AND/OR conditions, and the JSON tree the document compiles to.
    Every builder step returns a new value; Java's "return this" and "return an
    equal copy" are the same value here. */
module BlockStates {
  import opened Wrappers
  import OrderedMaps
  import opened OrderedSets
  import Keys
  import opened Json

  // ---------------------------------------------------------------------------
  // Rotations

  /** Java's `%` for a positive divisor: the remainder takes the dividend's sign. */
  function JavaRem(a: int, b: int): (r: int)
    requires b > 0
    ensures a >= 0 ==> 0 <= r < b
    ensures a < 0 ==> -b < r <= 0
  {
    if a >= 0 then a % b else -((-a) % b)
  }

  /** `((d % 360) + 360) % 360` in Java is the angle's residue in [0, 360). */
  lemma NormalizeIsResidue(degrees: int)
    ensures JavaRem(JavaRem(degrees, 360) + 360, 360) == degrees % 360
  {
    if degrees >= 0 {
      var m := degrees % 360;
      assert JavaRem(degrees, 360) == m;
      assert (m + 360) % 360 == m;
    } else {
      var q, m := (-degrees) / 360, (-degrees) % 360;
      assert -degrees == 360 * q + m;
      assert JavaRem(degrees, 360) == -m;
      if m == 0 {
        assert degrees == 360 * (-q);
      } else {
        assert degrees == 360 * (-q - 1) + (360 - m);
      }
    }
  }

  /** Rounding an angle in [0, 360) to quarter turns, halves upwards. */
  lemma RoundToQuarter(n: int)
    requires 0 <= n < 360
    ensures var r := ((n + 45) / 90 * 90) % 360;
            (r == 0 || r == 90 || r == 180 || r == 270)
            && ((n - 45 < r <= n + 45) || (r == 0 && n - 45 < 360 <= n + 45))
  {
    if n < 45 {
      assert (n + 45) / 90 == 0;
    } else if n < 135 {
      assert (n + 45) / 90 == 1;
    } else if n < 225 {
      assert (n + 45) / 90 == 2;
    } else if n < 315 {
      assert (n + 45) / 90 == 3;
    } else {
      assert (n + 45) / 90 == 4;
    }
  }

  /** Model.clampDegrees: the angle is brought into [0, 360) and rounded to the
      nearest quarter turn, halves upwards (Math.round(n / 90f) is
      (n + 45) / 90 for 0 <= n < 360, the halves being exact in float), and a
      full turn is 0. The result is the one quarter turn in the half-open
      window (n - 45, n + 45] around the angle n, counted modulo a full turn. */
  function ClampDegrees(degrees: int): (r: int)
    ensures r == 0 || r == 90 || r == 180 || r == 270
    ensures var n := degrees % 360;
            (n - 45 < r <= n + 45) || (r == 0 && n - 45 < 360 <= n + 45)
  {
    var normalized := JavaRem(JavaRem(degrees, 360) + 360, 360);
    NormalizeIsResidue(degrees);
    RoundToQuarter(normalized);
    ((normalized + 45) / 90 * 90) % 360
  }

  lemma ClampDegreesIdempotent(degrees: int)
    ensures ClampDegrees(ClampDegrees(degrees)) == ClampDegrees(degrees)
  {
    var r := ClampDegrees(degrees);
    assert r % 360 == r;
  }

  /** Angles a full turn apart clamp alike. */
  lemma ClampDegreesPeriodic(degrees: int)
    ensures ClampDegrees(degrees + 360) == ClampDegrees(degrees)
  {
    assert (degrees + 360) % 360 == degrees % 360;
  }

  lemma ClampDegreesExamples()
    ensures ClampDegrees(44) == 0 && ClampDegrees(45) == 90 && ClampDegrees(46) == 90
    ensures ClampDegrees(315) == 0 && ClampDegrees(-10) == 0 && ClampDegrees(-45) == 0
    ensures ClampDegrees(135) == 180 && ClampDegrees(-100) == 270
  {
    assert -10 % 360 == 350;
    assert -45 % 360 == 315;
    assert -100 % 360 == 260;
  }

  // ---------------------------------------------------------------------------
  // Models

  datatype ModelData = ModelData(path: Keys.Location, x: int, y: int, uvlock: bool, weight: int)

  /** A model as the source can build one: the constructor refuses a weight below 1. */
  type Model = m: ModelData | m.weight >= 1
    witness ModelData(Keys.Location("minecraft", "block/stone"), 0, 0, false, 1)

  datatype ModelError = InvalidWeight(weight: int)

  /** The private Model constructor. */
  function NewModel(path: Keys.Location, x: int, y: int, uvlock: bool, weight: int): (r: Result<Model, ModelError>)
    ensures r.Ok? <==> weight >= 1
    ensures r.Ok? ==> r.value == ModelData(path, x, y, uvlock, weight)
    ensures r.Err? ==> r.error == InvalidWeight(weight)
  {
    if weight < 1 then Err(InvalidWeight(weight)) else Ok(ModelData(path, x, y, uvlock, weight))
  }

  /** Model.of(path): no rotation, no uv lock, weight 1. */
  function ModelOf(path: Keys.Location): (r: Model)
    ensures r.path == path && r.x == 0 && r.y == 0 && !r.uvlock && r.weight == 1
  {
    ModelData(path, 0, 0, false, 1)
  }

  function WithPath(m: Model, path: Keys.Location): (r: Model)
    ensures r.path == path && r.x == m.x && r.y == m.y && r.uvlock == m.uvlock && r.weight == m.weight
  {
    if path == m.path then m else m.(path := path)
  }

  /** Model.withX: the stored angle is always a clamped one; nothing else changes. */
  function WithX(m: Model, degrees: int): (r: Model)
    ensures r.x == ClampDegrees(degrees)
    ensures r.path == m.path && r.y == m.y && r.uvlock == m.uvlock && r.weight == m.weight
    ensures ClampDegrees(degrees) == m.x ==> r == m
  {
    var clamped := ClampDegrees(degrees);
    if clamped == m.x then m else m.(x := clamped)
  }

  function WithY(m: Model, degrees: int): (r: Model)
    ensures r.y == ClampDegrees(degrees)
    ensures r.path == m.path && r.x == m.x && r.uvlock == m.uvlock && r.weight == m.weight
    ensures ClampDegrees(degrees) == m.y ==> r == m
  {
    var clamped := ClampDegrees(degrees);
    if clamped == m.y then m else m.(y := clamped)
  }

  function WithUVLock(m: Model, uvlock: bool): (r: Model)
    ensures r.uvlock == uvlock && r.path == m.path && r.x == m.x && r.y == m.y && r.weight == m.weight
  {
    if uvlock == m.uvlock then m else m.(uvlock := uvlock)
  }

  /** Model.withWeight goes through the constructor, so a weight below 1 fails. */
  function WithWeight(m: Model, weight: int): (r: Result<Model, ModelError>)
    ensures r.Ok? <==> weight >= 1
    ensures r.Err? ==> r.error == InvalidWeight(weight)
    ensures r.Ok? ==> r.value.weight == weight && r.value.path == m.path && r.value.x == m.x
                      && r.value.y == m.y && r.value.uvlock == m.uvlock
  {
    if weight == m.weight then Ok(m) else NewModel(m.path, m.x, m.y, m.uvlock, weight)
  }

  /** The members of Model.toJson, in order. */
  function ModelFields(m: Model): seq<(string, Json)>
  {
    [("model", JString(Keys.LocationString(m.path)))]
    + OptionalMember(m.x != 0, "x", JInt(m.x),
        OptionalMember(m.y != 0, "y", JInt(m.y),
          OptionalMember(m.uvlock, "uvlock", JBool(true),
            OptionalMember(m.weight != 1, "weight", JInt(m.weight), []))))
  }

  /** Model.toJson. */
  function ModelJson(m: Model): Json
  {
    JObject(ModelFields(m))
  }

  lemma ModelFieldsGet(m: Model, k: string)
    ensures OrderedMaps.Get(ModelFields(m), k)
            == if k == "model" then Some(JString(Keys.LocationString(m.path)))
               else if k == "x" && m.x != 0 then Some(JInt(m.x))
               else if k == "y" && m.y != 0 then Some(JInt(m.y))
               else if k == "uvlock" && m.uvlock then Some(JBool(true))
               else if k == "weight" && m.weight != 1 then Some(JInt(m.weight))
               else None
  {
    var weight := OptionalMember(m.weight != 1, "weight", JInt(m.weight), []);
    var uvlock := OptionalMember(m.uvlock, "uvlock", JBool(true), weight);
    var y := OptionalMember(m.y != 0, "y", JInt(m.y), uvlock);
    var x := OptionalMember(m.x != 0, "x", JInt(m.x), y);
    OrderedMaps.GetCons("model", JString(Keys.LocationString(m.path)), x, k);
    GetOptionalMember(m.x != 0, "x", JInt(m.x), y, k);
    GetOptionalMember(m.y != 0, "y", JInt(m.y), uvlock, k);
    GetOptionalMember(m.uvlock, "uvlock", JBool(true), weight, k);
    GetOptionalMember(m.weight != 1, "weight", JInt(m.weight), [], k);
  }

  /** Model.toJson always has `model`, the text of the model's location, and
      has `x`, `y`, `uvlock` and `weight` exactly when they differ from 0, 0,
      false and 1. */
  lemma ModelJsonMembers(m: Model)
    ensures ModelJson(m).JObject?
    ensures Member(ModelJson(m), "model") == Some(JString(Keys.LocationString(m.path)))
    ensures Member(ModelJson(m), "x") == if m.x != 0 then Some(JInt(m.x)) else None
    ensures Member(ModelJson(m), "y") == if m.y != 0 then Some(JInt(m.y)) else None
    ensures Member(ModelJson(m), "uvlock") == if m.uvlock then Some(JBool(true)) else None
    ensures Member(ModelJson(m), "weight") == if m.weight != 1 then Some(JInt(m.weight)) else None
  {
    ModelFieldsGet(m, "model");
    ModelFieldsGet(m, "x");
    ModelFieldsGet(m, "y");
    ModelFieldsGet(m, "uvlock");
    ModelFieldsGet(m, "weight");
  }

  /** The integer member `name`, or the default the encoder omits. */
  function IntMember(j: Json, name: string, default: int): int
  {
    match Member(j, name)
    case Some(JInt(i)) => i
    case _ => default
  }

  /** Reads a model back from its JSON object: the inverse of ModelJson. */
  function ModelFromJson(j: Json): Option<Model>
  {
    match Member(j, "model")
    case Some(JString(s)) =>
      (match Keys.ParseLocation(s)
       case Some(path) =>
         var uvlock := Member(j, "uvlock") == Some(JBool(true));
         (match NewModel(path, IntMember(j, "x", 0), IntMember(j, "y", 0), uvlock, IntMember(j, "weight", 1))
          case Ok(m) => Some(m)
          case Err(_) => None)
       case None => None)
    case _ => None
  }

  /** Every default ModelJson leaves out is the one ModelFromJson puts back, so a
      model survives its encoding. */
  lemma ModelJsonRoundTrip(m: Model)
    requires Keys.ValidNamespace(m.path.namespace)
    ensures ModelFromJson(ModelJson(m)) == Some(m)
  {
    ModelJsonMembers(m);
    Keys.ParseLocationString(m.path);
  }

  function ModelItems(models: seq<Model>): (r: seq<Json>)
    ensures |r| == |models|
    ensures forall i :: 0 <= i < |models| ==> r[i] == ModelJson(models[i])
  {
    if models == [] then [] else [ModelJson(models[0])] + ModelItems(models[1..])
  }

  /** The shared single-or-array encoding of a model set (Variant.toJson and
      the `apply` member of Multipart.toJson): one model is its own object,
      any other number of models an array in set order. */
  function ModelsJson(models: seq<Model>): (r: Json)
    ensures |models| == 1 ==> r == ModelJson(models[0])
    ensures |models| != 1 ==> r.JArray? && r.items == ModelItems(models)
  {
    if |models| == 1 then ModelJson(models[0]) else JArray(ModelItems(models))
  }

  function ModelsFromItems(items: seq<Json>): Option<seq<Model>>
  {
    if items == [] then Some([])
    else match (ModelFromJson(items[0]), ModelsFromItems(items[1..]))
      case (Some(m), Some(rest)) => Some([m] + rest)
      case _ => None
  }

  function ModelsFromJson(j: Json): Option<seq<Model>>
  {
    if j.JArray? then ModelsFromItems(j.items)
    else match ModelFromJson(j)
      case Some(m) => Some([m])
      case None => None
  }

  predicate ParsableModels(models: seq<Model>)
  {
    forall i :: 0 <= i < |models| ==> Keys.ValidNamespace(models[i].path.namespace)
  }

  lemma {:induction false} ModelsFromItemsRoundTrip(models: seq<Model>)
    requires ParsableModels(models)
    ensures ModelsFromItems(ModelItems(models)) == Some(models)
  {
    if models != [] {
      ModelJsonRoundTrip(models[0]);
      assert ModelItems(models)[1..] == ModelItems(models[1..]);
      ModelsFromItemsRoundTrip(models[1..]);
      assert [models[0]] + models[1..] == models;
    }
  }

  /** A model set survives its single-or-array encoding. */
  lemma ModelsJsonRoundTrip(models: seq<Model>)
    requires ParsableModels(models)
    ensures ModelsFromJson(ModelsJson(models)) == Some(models)
  {
    if |models| == 1 {
      ModelJsonRoundTrip(models[0]);
      assert [models[0]] == models;
    } else {
      ModelsFromItemsRoundTrip(models);
    }
  }

  // ---------------------------------------------------------------------------
  // Variants

  /** A variant: an insertion-ordered set of models. */
  datatype Variant = Variant(models: seq<Model>)

  /** Variant.of(model). */
  function VariantOf(model: Model): (r: Variant)
    ensures r.models == [model]
  {
    Variant([model])
  }

  /** Variant.of(models): the models without repeats, first occurrences first. */
  function VariantOfAll(models: seq<Model>): (r: Variant)
    ensures Distinct(r.models) && Elements(r.models) == Elements(models)
    ensures InFirstOrder(models, r.models)
  {
    DedupInFirstOrder(models);
    Variant(Dedup(models))
  }

  /** Variant.equals: the same set of models, in any order. */
  predicate VariantEquals(a: Variant, b: Variant)
  {
    Elements(a.models) == Elements(b.models)
  }

  /** Variant.of over two collections holding the same models, in any order
      and with any repeats, builds equal variants; and a variant equals
      exactly the variants of its own models. */
  lemma VariantEqualsIgnoresOrder(ms: seq<Model>, ns: seq<Model>)
    ensures Elements(ms) == Elements(ns) ==> VariantEquals(VariantOfAll(ms), VariantOfAll(ns))
    ensures VariantEquals(VariantOfAll(ms), VariantOfAll(ns)) ==> Elements(ms) == Elements(ns)
  {
  }

  function VariantJson(v: Variant): Json
  {
    ModelsJson(v.models)
  }

  // ---------------------------------------------------------------------------
  // Conditions

  datatype Op = And | Or

  function OpName(op: Op): string
  {
    match op
    case And => "and"
    case Or => "or"
  }

  /** PropertyCondition (a state property and its accepted values) and
      CompositeCondition (an operator over child conditions); both sets keep
      insertion order. */
  datatype Condition =
    | Property(key: string, values: seq<string>)
    | Composite(op: Op, children: seq<Condition>)

  /** The nesting depth of a condition; the measure equality recurses on. */
  function Depth(c: Condition): nat
    decreases c, 1
  {
    match c
    case Property(_, _) => 0
    case Composite(_, children) => 1 + MaxDepth(children)
  }

  function MaxDepth(cs: seq<Condition>): (r: nat)
    ensures forall i :: 0 <= i < |cs| ==> Depth(cs[i]) <= r
    decreases cs, 0
  {
    if cs == [] then 0
    else
      var rest := MaxDepth(cs[1..]);
      assert forall i :: 1 <= i < |cs| ==> cs[i] == cs[1..][i - 1];
      if Depth(cs[0]) > rest then Depth(cs[0]) else rest
  }

  /** Condition.equals as the two classes define it. For composites it is
      AbstractSet.equals on the children: equal sizes, and the children of `a`
      contain each child of `b`. The model uses only this orientation, the
      receiver against the argument, as `contains` and the builders' guards
      do; it is not symmetric for composites whose children repeat up to
      equality (`CondEqualsAsymmetricOnRepeats`), which no constructor
      builds. */
  predicate CondEquals(a: Condition, b: Condition)
    decreases Depth(a) + Depth(b), 0
  {
    match a
    case Property(key, values) =>
      b.Property? && key == b.key && Elements(values) == Elements(b.values)
    case Composite(op, children) =>
      b.Composite? && op == b.op && |children| == |b.children|
      && forall j :: 0 <= j < |b.children| ==> Represented(children, b.children[j])
  }

  /** Set.contains(c) on a set of conditions: `c` is equal (by its own equals)
      to some member. */
  predicate Represented(cs: seq<Condition>, c: Condition)
    decreases MaxDepth(cs) + Depth(c), 1
  {
    exists j :: 0 <= j < |cs| && CondEquals(c, cs[j])
  }

  lemma {:induction false} CondEqualsReflexive(c: Condition)
    ensures CondEquals(c, c)
    decreases c
  {
    match c
    case Property(_, _) =>
    case Composite(_, children) =>
      forall j | 0 <= j < |children|
        ensures Represented(children, children[j])
      {
        CondEqualsReflexive(children[j]);
        assert CondEquals(children[j], children[j]);
      }
  }

  /** LinkedHashSet.add for conditions: appended unless an equal one is present. */
  function AddCondition(cs: seq<Condition>, c: Condition): seq<Condition>
  {
    if Represented(cs, c) then cs else cs + [c]
  }

  /** `r[j]` is the first of its group in `cs`: every condition that comes
      before it in `cs` is equal to one kept before it. */
  ghost predicate FirstOfGroup(cs: seq<Condition>, r: seq<Condition>, j: nat)
    requires j < |r| && r[j] in cs
  {
    forall i :: 0 <= i < FirstIndex(cs, r[j]) ==> Represented(r[..j], cs[i])
  }

  /** A condition set copied from a collection: the first of each group of
      equal conditions, in order (that each kept one is the first of its group
      is `DedupConditionsFirstOfGroup`). */
  function DedupConditions(cs: seq<Condition>): (r: seq<Condition>)
    ensures forall j :: 0 <= j < |r| ==> r[j] in cs
    ensures forall i {:trigger Represented(r, cs[i])} :: 0 <= i < |cs| ==> Represented(r, cs[i])
    ensures forall i, j :: 0 <= i < j < |r| ==> !CondEquals(r[j], r[i])
    ensures InFirstOrder(cs, r)
  {
    if cs == [] then []
    else
      var init, last := cs[..|cs| - 1], cs[|cs| - 1];
      assert cs == init + [last];
      var r := DedupConditions(init);
      DedupConditionsCovers(init, last, r);
      DedupConditionsApart(init, last, r);
      AddCondition(r, last)
  }

  /** Each kept condition is the first of its group: every condition given
      before it is equal to one kept before it. */
  lemma DedupConditionsFirstOfGroup(cs: seq<Condition>)
    ensures forall j :: 0 <= j < |DedupConditions(cs)| ==> FirstOfGroup(cs, DedupConditions(cs), j)
  {
    forall j | 0 <= j < |DedupConditions(cs)| ensures FirstOfGroup(cs, DedupConditions(cs), j) {
      FirstOfGroupAt(cs, DedupConditions(cs), j);
    }
  }

  /** The same for one kept condition, by induction on the conditions given. */
  lemma {:induction false} FirstOfGroupAt(cs: seq<Condition>, r': seq<Condition>, j: nat)
    requires r' == DedupConditions(cs) && j < |r'|
    ensures r'[j] in cs && FirstOfGroup(cs, r', j)
  {
    assert r'[j] in cs;
    var init, last := cs[..|cs| - 1], cs[|cs| - 1];
    var r := DedupConditions(init);
    assert r' == AddCondition(r, last);
    if j < |r| {
      FirstOfGroupAt(init, r, j);
      FirstOfGroupKept(init, last, r, j, cs, r');
    } else {
      FirstOfGroupAdded(init, last, r, cs, r');
    }
  }

  /** Adding `last` to the copy of `init` keeps every condition of
      `init + [last]` represented by a kept one ... */
  lemma DedupConditionsCovers(init: seq<Condition>, last: Condition, r: seq<Condition>)
    requires forall j :: 0 <= j < |r| ==> r[j] in init
    requires forall i :: 0 <= i < |init| ==> Represented(r, init[i])
    ensures (forall j :: 0 <= j < |(AddCondition(r, last))| ==> (AddCondition(r, last))[j] in (init + [last])) && (forall i :: 0 <= i < |(init + [last])| ==> Represented((AddCondition(r, last)), (init + [last])[i]))
  {
    var cs := init + [last];
    var r' := AddCondition(r, last);
    forall i | 0 <= i < |cs| ensures Represented(r', cs[i]) {
      if i < |cs| - 1 {
        assert cs[i] == init[i];
        var j :| 0 <= j < |r| && CondEquals(cs[i], r[j]);
        assert r'[j] == r[j];
      } else if !Represented(r, last) {
        CondEqualsReflexive(last);
        assert r'[|r|] == last;
      }
    }
  }

  /** ... and keeps the kept conditions pairwise unequal, in first-occurrence
      order. */
  lemma DedupConditionsApart(init: seq<Condition>, last: Condition, r: seq<Condition>)
    requires forall i :: 0 <= i < |init| ==> Represented(r, init[i])
    requires forall i, j :: 0 <= i < j < |r| ==> !CondEquals(r[j], r[i])
    requires InFirstOrder(init, r)
    ensures (forall i, j :: 0 <= i < j < |(AddCondition(r, last))| ==> !CondEquals((AddCondition(r, last))[j], (AddCondition(r, last))[i])) && InFirstOrder((init + [last]), (AddCondition(r, last)))
  {
    var r' := AddCondition(r, last);
    InFirstOrderExtend(init, r, last);
    if !Represented(r, last) {
      assert last !in init by {
        forall i | 0 <= i < |init| ensures init[i] != last {
          assert Represented(r, init[i]);
        }
      }
      forall i, j | 0 <= i < j < |r'| ensures !CondEquals(r'[j], r'[i]) {
        if j == |r| {
          assert r'[j] == last && r'[i] == r[i];
        } else {
          assert r'[j] == r[j] && r'[i] == r[i];
        }
      }
    }
  }

  /** A condition kept before `last` stays the first of its group, whether or
      not `last` is added after it ... */
  lemma FirstOfGroupKept(init: seq<Condition>, last: Condition, r: seq<Condition>, j: nat,
                         cs: seq<Condition>, r': seq<Condition>)
    requires cs != [] && init == cs[..|cs| - 1] && last == cs[|cs| - 1]
    requires r' == AddCondition(r, last)
    requires j < |r| && r[j] in init && FirstOfGroup(init, r, j)
    ensures r'[j] in cs && FirstOfGroup(cs, r', j)
  {
    SplitLast(cs);
    FirstIndexAppend(init, last);
    assert r'[j] == r[j] && r'[..j] == r[..j];
    forall i | 0 <= i < FirstIndex(cs, r[j]) ensures Represented(r[..j], cs[i]) {
      assert cs[i] == init[i];
    }
  }

  /** ... and a condition that is added is the first of its group. */
  lemma FirstOfGroupAdded(init: seq<Condition>, last: Condition, r: seq<Condition>,
                          cs: seq<Condition>, r': seq<Condition>)
    requires cs != [] && init == cs[..|cs| - 1] && last == cs[|cs| - 1]
    requires r' == AddCondition(r, last)
    requires forall i :: 0 <= i < |init| ==> Represented(r, init[i])
    requires |r| < |r'|
    ensures |r'| == |r| + 1 && r'[|r|] in cs && FirstOfGroup(cs, r', |r|)
  {
    SplitLast(cs);
    assert !Represented(r, last);
    assert last !in init by {
      forall k | 0 <= k < |init| ensures init[k] != last {
        assert Represented(r, init[k]);
      }
    }
    FirstIndexAppend(init, last);
    assert r' == r + [last];
    assert r'[|r|] == last && r'[..|r|] == r;
    forall i | 0 <= i < FirstIndex(cs, last) ensures Represented(r, cs[i]) {
      assert cs[i] == init[i];
    }
  }

  /** Of two equal conditions given in turn, the first is the one kept. */
  lemma DedupConditionsKeepsFirst()
    ensures var a, b := Property("k", ["x", "y"]), Property("k", ["y", "x"]);
            a != b && CondEquals(a, b) && CondEquals(b, a) && DedupConditions([a, b]) == [a]
  {
    var a, b := Property("k", ["x", "y"]), Property("k", ["y", "x"]);
    assert Elements(a.values) == {"x", "y"} == Elements(b.values);
    assert a.values[0] != b.values[0];
    assert [a, b][..1] == [a] && [a][..0] == [];
    assert DedupConditions([a]) == AddCondition([], a) == [a];
    assert Represented([a], b) by {
      assert CondEquals(b, [a][0]);
    }
    assert DedupConditions([a, b]) == AddCondition([a], b);
  }

  /** A composite with children repeated up to equality: `a` equals `b`, but
      `b` does not equal `a`. */
  lemma CondEqualsAsymmetricOnRepeats()
    ensures var x, y := Property("k", ["x"]), Property("k", ["y"]);
            var a, b := Composite(And, [x, y]), Composite(And, [x, x]);
            CondEquals(a, b) && !CondEquals(b, a)
  {
    var x, y := Property("k", ["x"]), Property("k", ["y"]);
    var a, b := Composite(And, [x, y]), Composite(And, [x, x]);
    assert Elements(x.values) == {"x"} && Elements(y.values) == {"y"};
    assert CondEquals(x, x);
    assert Represented(a.children, b.children[0]) by {
      assert CondEquals(b.children[0], a.children[0]);
    }
    assert Represented(a.children, b.children[1]) by {
      assert CondEquals(b.children[1], a.children[0]);
    }
    assert !Represented(b.children, a.children[1]) by {
      assert !CondEquals(y, x);
    }
  }

  /** new PropertyCondition(key, values). */
  function PropertyOf(key: string, values: seq<string>): (r: Condition)
    ensures r.Property? && r.key == key && Distinct(r.values) && Elements(r.values) == Elements(values)
    ensures InFirstOrder(values, r.values)
  {
    DedupInFirstOrder(values);
    Property(key, Dedup(values))
  }

  /** CompositeCondition.and / CompositeCondition.or. */
  function CompositeOf(op: Op, children: seq<Condition>): (r: Condition)
    ensures r.Composite? && r.op == op
    ensures forall j :: 0 <= j < |r.children| ==> r.children[j] in children
    ensures forall i :: 0 <= i < |children| ==> Represented(r.children, children[i])
    ensures forall i, j :: 0 <= i < j < |r.children| ==> !CondEquals(r.children[j], r.children[i])
    ensures InFirstOrder(children, r.children)
    ensures forall j :: 0 <= j < |r.children| ==> FirstOfGroup(children, r.children, j)
  {
    DedupConditionsFirstOfGroup(children);
    Composite(op, DedupConditions(children))
  }

  /** PropertyCondition.toJson and CompositeCondition.toJson: one member, named
      after the property or the operator; a property's single value is a
      string, any other number of values an array; the children of a
      composite are always an array. */
  function CondJson(c: Condition): (r: Json)
    ensures r.JObject? && |r.fields| == 1
    ensures c.Property? ==> r.fields[0].0 == c.key
    ensures c.Property? && |c.values| == 1 ==> r.fields[0].1 == JString(c.values[0])
    ensures c.Property? && |c.values| != 1 ==>
              r.fields[0].1.JArray? && |r.fields[0].1.items| == |c.values|
              && forall i :: 0 <= i < |c.values| ==> r.fields[0].1.items[i] == JString(c.values[i])
    ensures c.Composite? ==> r.fields[0] == (OpName(c.op), JArray(CondItems(c.children)))
    decreases c, 1
  {
    match c
    case Property(key, values) =>
      if |values| == 1 then JObject([(key, JString(values[0]))])
      else JObject([(key, JArray(seq(|values|, i requires 0 <= i < |values| => JString(values[i]))))])
    case Composite(op, children) =>
      JObject([(OpName(op), JArray(CondItems(children)))])
  }

  function CondItems(cs: seq<Condition>): (r: seq<Json>)
    ensures |r| == |cs|
    ensures forall i :: 0 <= i < |cs| ==> r[i] == CondJson(cs[i])
    decreases cs, 0
  {
    if cs == [] then [] else [CondJson(cs[0])] + CondItems(cs[1..])
  }

  // ---------------------------------------------------------------------------
  // Multipart rules

  /** A multipart rule: an optional condition and an insertion-ordered set of models. */
  datatype Multipart = Multipart(when: Option<Condition>, apply: seq<Model>)

  /** Objects.equals on two optional conditions. */
  predicate WhenEquals(a: Option<Condition>, b: Option<Condition>)
  {
    (a.None? && b.None?) || (a.Some? && b.Some? && CondEquals(a.value, b.value))
  }

  predicate MultipartEquals(a: Multipart, b: Multipart)
  {
    WhenEquals(a.when, b.when) && Elements(a.apply) == Elements(b.apply)
  }

  lemma MultipartEqualsReflexive(m: Multipart)
    ensures MultipartEquals(m, m)
  {
    if m.when.Some? {
      CondEqualsReflexive(m.when.value);
    }
  }

  /** Multipart.of(when, model). */
  function MultipartOf(when: Option<Condition>, model: Model): (r: Multipart)
    ensures r.when == when && r.apply == [model]
  {
    Multipart(when, [model])
  }

  /** Multipart.of(when, models). */
  function MultipartOfAll(when: Option<Condition>, models: seq<Model>): (r: Multipart)
    ensures r.when == when && Distinct(r.apply) && Elements(r.apply) == Elements(models)
    ensures InFirstOrder(models, r.apply)
  {
    DedupInFirstOrder(models);
    Multipart(when, Dedup(models))
  }

  function WithWhen(m: Multipart, when: Option<Condition>): (r: Multipart)
    ensures r.apply == m.apply
    ensures WhenEquals(when, m.when) ==> r == m
    ensures !WhenEquals(when, m.when) ==> r.when == when
  {
    if WhenEquals(when, m.when) then m else Multipart(when, m.apply)
  }

  /** Multipart.withApply(model): afterwards the rule applies exactly that model. */
  function WithApply(m: Multipart, model: Model): (r: Multipart)
    ensures r.when == m.when && r.apply == [model]
  {
    if |m.apply| == 1 && m.apply[0] == model then m else Multipart(m.when, [model])
  }

  /** Multipart.withApply(models): the same set of models keeps the rule as it is. */
  function WithApplyAll(m: Multipart, models: seq<Model>): (r: Multipart)
    ensures r.when == m.when && Elements(r.apply) == Elements(models)
    ensures Elements(models) == Elements(m.apply) ==> r == m
    ensures Elements(models) != Elements(m.apply) ==> Distinct(r.apply) && InFirstOrder(models, r.apply)
  {
    DedupInFirstOrder(models);
    var copy := Dedup(models);
    if Elements(copy) == Elements(m.apply) then m else Multipart(m.when, copy)
  }

  function WithoutWhen(m: Multipart): (r: Multipart)
    ensures r.when == None && r.apply == m.apply
  {
    if m.when.None? then m else Multipart(None, m.apply)
  }

  /** Multipart.toJson: `when` only when there is a condition, then `apply`. */
  function MultipartJson(m: Multipart): (r: Json)
    ensures r.JObject?
    ensures Names(r) == if m.when.Some? then ["when", "apply"] else ["apply"]
    ensures Member(r, "when") == if m.when.Some? then Some(CondJson(m.when.value)) else None
    ensures Member(r, "apply") == Some(ModelsJson(m.apply))
  {
    var apply := [("apply", ModelsJson(m.apply))];
    OrderedMaps.GetCons("apply", ModelsJson(m.apply), [], "apply");
    OrderedMaps.GetCons("apply", ModelsJson(m.apply), [], "when");
    if m.when.Some? then
      OrderedMaps.GetCons("when", CondJson(m.when.value), apply, "apply");
      OrderedMaps.GetCons("when", CondJson(m.when.value), apply, "when");
      JObject([("when", CondJson(m.when.value))] + apply)
    else JObject(apply)
  }

  // ---------------------------------------------------------------------------
  // The document

  datatype BlockState = BlockState(key: Keys.Key, variants: seq<(string, Variant)>, multipart: seq<Multipart>)

  /** The format's rule, kept by every builder step: variants and multipart
      are never both present. */
  predicate Exclusive(b: BlockState)
  {
    b.variants == [] || b.multipart == []
  }

  /** InMemoryBlockStateAsset.of(namespace, name): key
      `namespace:blockstates/name.json`, nothing defined yet. */
  function Of(namespace: string, name: string): (r: Result<BlockState, Keys.KeyError>)
    ensures r.Ok? <==> Keys.ValidNamespace(namespace) && Keys.ValidNamespace(name)
    ensures r.Ok? ==> r.value.key == Keys.Key(namespace, "blockstates", name, "json")
                      && r.value.variants == [] && r.value.multipart == []
    ensures !Keys.ValidNamespace(namespace) ==> r == Err(Keys.InvalidNamespace(namespace))
    ensures Keys.ValidNamespace(namespace) && !Keys.ValidNamespace(name) ==> r == Err(Keys.InvalidName(name))
  {
    assert Keys.ValidPath("blockstates") by {
      forall i | 0 <= i < |"blockstates"| ensures Keys.IsPathChar("blockstates"[i]) {
        assert "blockstates"[i] in "blockstates";
      }
    }
    assert Keys.ValidNamespace("json") by {
      forall i | 0 <= i < |"json"| ensures Keys.IsNamespaceChar("json"[i]) {
        assert "json"[i] in "json";
      }
    }
    match Keys.Of(namespace, "blockstates", name, "json")
    case Ok(key) => Ok(BlockState(key, [], []))
    case Err(e) => Err(e)
  }

  /** InMemoryBlockStateAsset.of(location): the location's path is the name. */
  function OfLocation(l: Keys.Location): (r: Result<BlockState, Keys.KeyError>)
    ensures r == Of(l.namespace, l.path)
  {
    Of(l.namespace, l.path)
  }

  /** Map.containsValue(variant): some key maps to a variant equal to it. */
  predicate ContainsVariant(variants: seq<(string, Variant)>, variant: Variant)
  {
    exists i :: 0 <= i < |variants| && VariantEquals(variant, variants[i].1)
  }

  /** The key is put (in place if present, else appended) and every multipart
      rule is dropped. */
  function WithVariantPut(b: BlockState, key: string, variant: Variant): (r: BlockState)
    ensures r.key == b.key && r.multipart == []
    ensures OrderedMaps.Get(r.variants, key) == Some(variant)
    ensures forall k :: k != key ==> OrderedMaps.Get(r.variants, k) == OrderedMaps.Get(b.variants, k)
    ensures OrderedMaps.KeysOf(r.variants) == if key in OrderedMaps.KeysOf(b.variants) then OrderedMaps.KeysOf(b.variants)
                                              else OrderedMaps.KeysOf(b.variants) + [key]
  {
    var r := BlockState(b.key, OrderedMaps.Put(b.variants, key, variant), []);
    forall k ensures OrderedMaps.Get(r.variants, k) == if k == key then Some(variant) else OrderedMaps.Get(b.variants, k) {
      OrderedMaps.PutGet(b.variants, key, variant, k);
    }
    OrderedMaps.PutKeys(b.variants, key, variant);
    r
  }

  /** InMemoryBlockStateAsset.withVariant, as written: nothing changes when the
      key is present and the variant is equal to any value of the map (not
      necessarily the key's own); otherwise the key gets the variant, keeping
      its position or appended, and every multipart rule is dropped. */
  function WithVariant(b: BlockState, key: string, variant: Variant): (r: BlockState)
    ensures r.key == b.key
    ensures key in OrderedMaps.KeysOf(b.variants) && ContainsVariant(b.variants, variant) ==> r == b
    ensures !(key in OrderedMaps.KeysOf(b.variants) && ContainsVariant(b.variants, variant)) ==>
              r.multipart == [] && OrderedMaps.Get(r.variants, key) == Some(variant)
              && (OrderedMaps.KeysOf(r.variants) == if key in OrderedMaps.KeysOf(b.variants) then OrderedMaps.KeysOf(b.variants)
                                                    else OrderedMaps.KeysOf(b.variants) + [key])
    ensures forall k :: k != key ==> OrderedMaps.Get(r.variants, k) == OrderedMaps.Get(b.variants, k)
  {
    if key in OrderedMaps.KeysOf(b.variants) && ContainsVariant(b.variants, variant) then b
    else WithVariantPut(b, key, variant)
  }

  /** The key already maps to a variant equal to `variant`. */
  predicate MapsToEqual(variants: seq<(string, Variant)>, key: string, variant: Variant)
  {
    match OrderedMaps.Get(variants, key)
    case Some(v) => VariantEquals(variant, v)
    case None => false
  }

  /** The corrected withVariant: nothing changes only when the key already maps
      to an equal variant. */
  function WithVariantIntended(b: BlockState, key: string, variant: Variant): (r: BlockState)
    ensures r.key == b.key
    ensures MapsToEqual(b.variants, key, variant) ==> r == b
    ensures !MapsToEqual(b.variants, key, variant) ==> r.multipart == [] && OrderedMaps.Get(r.variants, key) == Some(variant)
    ensures forall k :: k != key ==> OrderedMaps.Get(r.variants, k) == OrderedMaps.Get(b.variants, k)
    ensures MapsToEqual(r.variants, key, variant)
  {
    if MapsToEqual(b.variants, key, variant) then b else WithVariantPut(b, key, variant)
  }

  /** Set.contains(multipart): some rule of the document is equal to it. */
  predicate ContainsMultipart(rules: seq<Multipart>, m: Multipart)
  {
    exists i :: 0 <= i < |rules| && MultipartEquals(m, rules[i])
  }

  /** InMemoryBlockStateAsset.withMultipart: nothing changes when an equal rule
      is present; otherwise the rule is appended and every variant dropped. */
  function WithMultipart(b: BlockState, m: Multipart): (r: BlockState)
    ensures r.key == b.key
    ensures ContainsMultipart(r.multipart, m)
    ensures ContainsMultipart(b.multipart, m) ==> r == b
    ensures !ContainsMultipart(b.multipart, m) ==> r.variants == [] && r.multipart == b.multipart + [m]
  {
    if ContainsMultipart(b.multipart, m) then b
    else
      MultipartEqualsReflexive(m);
      assert (b.multipart + [m])[|b.multipart|] == m;
      BlockState(b.key, [], b.multipart + [m])
  }

  lemma WithVariantKeepsExclusive(b: BlockState, key: string, variant: Variant)
    requires Exclusive(b)
    ensures Exclusive(WithVariant(b, key, variant))
  {
  }

  lemma WithMultipartKeepsExclusive(b: BlockState, m: Multipart)
    requires Exclusive(b)
    ensures Exclusive(WithMultipart(b, m))
  {
  }

  lemma WithMultipartIdempotent(b: BlockState, m: Multipart)
    ensures WithMultipart(WithMultipart(b, m), m) == WithMultipart(b, m)
  {
  }

  lemma WithVariantIdempotent(b: BlockState, key: string, variant: Variant)
    ensures WithVariant(WithVariant(b, key, variant), key, variant) == WithVariant(b, key, variant)
  {
    if !(key in OrderedMaps.KeysOf(b.variants) && ContainsVariant(b.variants, variant)) {
      var r := WithVariant(b, key, variant);
      OrderedMaps.GetIndex(r.variants, key);
      var j :| 0 <= j < |r.variants| && r.variants[j].0 == key && OrderedMaps.Get(r.variants, key) == Some(r.variants[j].1);
      assert VariantEquals(variant, r.variants[j].1);
    }
  }

  lemma WithVariantIntendedIdempotent(b: BlockState, key: string, variant: Variant)
    ensures WithVariantIntended(WithVariantIntended(b, key, variant), key, variant)
            == WithVariantIntended(b, key, variant)
  {
  }

  /** The guard looks for the variant among all values: when the key holds one
      variant and another key holds the new one, the key keeps its old variant. */
  lemma WithVariantKeepsStaleValue(key: Keys.Key, m1: Model, m2: Model)
    requires m1 != m2
    ensures var b := BlockState(key, [("a", VariantOf(m1)), ("b", VariantOf(m2))], []);
            WithVariant(b, "a", VariantOf(m2)) == b
            && OrderedMaps.Get(b.variants, "a") == Some(VariantOf(m1))
            && !VariantEquals(VariantOf(m1), VariantOf(m2))
  {
    var b := BlockState(key, [("a", VariantOf(m1)), ("b", VariantOf(m2))], []);
    assert VariantEquals(VariantOf(m2), b.variants[1].1);
    assert OrderedMaps.KeysOf(b.variants)[0] == "a";
    assert m1 in Elements(VariantOf(m1).models);
  }

  /** The corrected withVariant gives the key the new variant in that case. */
  lemma WithVariantIntendedUpdates(key: Keys.Key, m1: Model, m2: Model)
    requires m1 != m2
    ensures var b := BlockState(key, [("a", VariantOf(m1)), ("b", VariantOf(m2))], []);
            OrderedMaps.Get(WithVariantIntended(b, "a", VariantOf(m2)).variants, "a") == Some(VariantOf(m2))
  {
    var b := BlockState(key, [("a", VariantOf(m1)), ("b", VariantOf(m2))], []);
    assert m1 in Elements(VariantOf(m1).models);
    assert OrderedMaps.Get(b.variants, "a") == Some(VariantOf(m1));
  }

  function VariantFields(variants: seq<(string, Variant)>): (r: seq<(string, Json)>)
    ensures |r| == |variants|
    ensures forall i :: 0 <= i < |variants| ==> r[i] == (variants[i].0, VariantJson(variants[i].1))
  {
    if variants == [] then []
    else [(variants[0].0, VariantJson(variants[0].1))] + VariantFields(variants[1..])
  }

  function MultipartItems(rules: seq<Multipart>): (r: seq<Json>)
    ensures |r| == |rules|
    ensures forall i :: 0 <= i < |rules| ==> r[i] == MultipartJson(rules[i])
  {
    if rules == [] then [] else [MultipartJson(rules[0])] + MultipartItems(rules[1..])
  }

  /** InMemoryBlockStateAsset.toJson. */
  function DocJson(b: BlockState): Json
  {
    JObject(OptionalMember(b.variants != [], "variants", JObject(VariantFields(b.variants)),
              OptionalMember(b.multipart != [], "multipart", JArray(MultipartItems(b.multipart)), [])))
  }

  /** The document's sections: `variants` (an object keyed by state string,
      in insertion order) before `multipart` (an array in insertion order),
      each present exactly when it is non-empty. */
  lemma DocJsonSections(b: BlockState)
    ensures DocJson(b).JObject?
    ensures Names(DocJson(b)) == (if b.variants != [] then ["variants"] else [])
                                 + (if b.multipart != [] then ["multipart"] else [])
    ensures Member(DocJson(b), "variants")
            == if b.variants != [] then Some(JObject(VariantFields(b.variants))) else None
    ensures Member(DocJson(b), "multipart")
            == if b.multipart != [] then Some(JArray(MultipartItems(b.multipart))) else None
    ensures OrderedMaps.KeysOf(VariantFields(b.variants)) == OrderedMaps.KeysOf(b.variants)
  {
    var variants := JObject(VariantFields(b.variants));
    var multipart := JArray(MultipartItems(b.multipart));
    var tail := OptionalMember(b.multipart != [], "multipart", multipart, []);
    GetOptionalMember(b.variants != [], "variants", variants, tail, "variants");
    GetOptionalMember(b.variants != [], "variants", variants, tail, "multipart");
    GetOptionalMember(b.multipart != [], "multipart", multipart, [], "variants");
    GetOptionalMember(b.multipart != [], "multipart", multipart, [], "multipart");
  }

  /** An empty document is the empty object. */
  lemma EmptyDocJson(key: Keys.Key)
    ensures DocJson(BlockState(key, [], [])) == JObject([])
  {
  }

  /** One variant `""` with one plain model compiles to
      `{"variants":{"":{"model":"mymod:block/oak_log"}}}`. */
  lemma SingleVariantDocJson(key: Keys.Key)
    ensures var m := ModelOf(Keys.Location("mymod", "block/oak_log"));
            DocJson(BlockState(key, [("", VariantOf(m))], []))
            == JObject([("variants", JObject([("", JObject([("model", JString("mymod:block/oak_log"))]))]))])
  {
    var m := ModelOf(Keys.Location("mymod", "block/oak_log"));
    assert Keys.LocationString(m.path) == "mymod:block/oak_log";
    assert ModelFields(m) == [("model", JString("mymod:block/oak_log"))] + [];
    var v := JObject([("model", JString("mymod:block/oak_log"))]);
    assert VariantJson(VariantOf(m)) == v;
    var b := BlockState(key, [("", VariantOf(m))], []);
    assert VariantFields(b.variants) == [("", v)];
    assert MultipartItems(b.multipart) == [];
  }
}
