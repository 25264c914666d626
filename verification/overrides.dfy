/** The hand-written per-event patches (`eventFields.overrides.ts`): a table, keyed by event
    name, of closures that change parameters of the in-memory event before it is rendered. */
module EventOverrides {
  import opened Common
  import opened OrderedMaps
  import opened LDoc

  /** One `[name, desc?, overrideName?]` tuple of `replaceParam`; `""` stands for an element
      that is missing or empty, both of which are falsy and skip the setter. */
  datatype Replacement = Replacement(name: string, desc: string, overrideName: string)

  /** What a `modify` closure does to the event it is given. */
  datatype Patch =
    | SetParamType(param: string, newType: string)  // levt.params.get(param).setType(newType)
    | ReplaceParam(replace: seq<Replacement>)       // replaceParam(levt, replace)

  /** An element of `modifiers`. */
  datatype Modifier = Modifier(name: string, patch: Patch)

  /** An entry of `overrides`: `{ type: "modify", ...m }`. */
  datatype Override = Override(kind: string, name: string, patch: Patch)

  /** The `modifiers` list, in source order. */
  function Modifiers(): (r: seq<Modifier>)
    ensures |r| == 2
  {
    [ Modifier("eventSummoningEnd", SetParamType("objectDescription", "tfm.ShamanObject")),
      Modifier("eventContactListener", SetParamType("contactInfos", "tfm.ContactDef")) ]
  }

  // ---------------------------------------------------------------------------------------
  // The `overrides` record

  /** The record after the population loop has run over `mods`. */
  function OverridesFrom(mods: seq<Modifier>): map<string, Override>
    decreases |mods|
  {
    if mods == [] then map[]
    else
      var m := mods[|mods| - 1];
      OverridesFrom(mods[..|mods| - 1])[m.name := Override("modify", m.name, m.patch)]
  }

  /** The modifier names, as a set. */
  function ModifierNames(mods: seq<Modifier>): set<string>
  {
    set i | 0 <= i < |mods| :: mods[i].name
  }

  /** One entry per modifier name, each tagged `"modify"` and carrying its own key as name. */
  lemma {:induction false} OverridesFromKeys(mods: seq<Modifier>)
    ensures OverridesFrom(mods).Keys == ModifierNames(mods)
    ensures forall k :: k in OverridesFrom(mods) ==>
      OverridesFrom(mods)[k].kind == "modify" && OverridesFrom(mods)[k].name == k
    decreases |mods|
  {
    if mods != [] {
      var n := |mods| - 1;
      var init := mods[..n];
      OverridesFromKeys(init);
      assert ModifierNames(mods) == ModifierNames(init) + {mods[n].name} by {
        assert forall i :: 0 <= i < n ==> init[i] == mods[i];
        forall x | x in ModifierNames(mods) ensures x in ModifierNames(init) + {mods[n].name} {
          var i :| 0 <= i < |mods| && mods[i].name == x;
          if i < n {
            assert init[i].name == x;
          }
        }
      }
    }
  }

  /** A name's entry carries the last modifier of that name. */
  lemma {:induction false} OverridesFromLastWins(mods: seq<Modifier>, i: nat)
    requires i < |mods|
    requires forall j :: i < j < |mods| ==> mods[j].name != mods[i].name
    ensures mods[i].name in OverridesFrom(mods)
    ensures OverridesFrom(mods)[mods[i].name] == Override("modify", mods[i].name, mods[i].patch)
    decreases |mods|
  {
    var n := |mods| - 1;
    if i < n {
      var init := mods[..n];
      assert init[i] == mods[i] && mods[n].name != mods[i].name;
      forall j | i < j < n ensures init[j].name != init[i].name {
        assert init[j] == mods[j];
      }
      OverridesFromLastWins(init, i);
    }
  }

  /** The population loop: each modifier stored under its name, a later one replacing an
      earlier one of the same name. */
  method BuildOverrides(mods: seq<Modifier>) returns (table: map<string, Override>)
    ensures table == OverridesFrom(mods)
  {
    table := map[];
    var i := 0;
    while i < |mods|
      invariant 0 <= i <= |mods|
      invariant table == OverridesFrom(mods[..i])
    {
      var m := mods[i];
      assert mods[..i + 1][..i] == mods[..i];
      table := table[m.name := Override("modify", m.name, m.patch)];
      i := i + 1;
    }
    assert mods[..i] == mods;
  }

  /** The shipped table has exactly the two entries, each retyping one parameter. */
  lemma {:induction false} OverridesTable()
    ensures OverridesFrom(Modifiers()) == map[
      "eventSummoningEnd" := Override("modify", "eventSummoningEnd", SetParamType("objectDescription", "tfm.ShamanObject")),
      "eventContactListener" := Override("modify", "eventContactListener", SetParamType("contactInfos", "tfm.ContactDef"))]
  {
    var mods := Modifiers();
    assert mods[..1][..0] == [];
    assert mods[..1] == [mods[0]];
  }

  // ---------------------------------------------------------------------------------------
  // What a patch does to the state of an event

  /** `levt.params.get(k).setType(t)`: a missing parameter fails (a method call on `undefined`). */
  function SetTypeValue(e: EventValue, k: string, t: string): Result<EventValue, Error>
  {
    if k !in e.params.entries then Failure(MissingParam(k))
    else Success(e.SetParam(k, e.params.entries[k].(typeName := t)))
  }

  /** Whether a `replaceParam` tuple calls any setter. */
  predicate Applies(r: Replacement)
  {
    r.desc != "" || r.overrideName != ""
  }

  /** One iteration of `replaceParam`: the description, then the override name, each only when
      it is non-empty, each on the parameter looked up by `r.name`. */
  function ReplaceOne(e: EventValue, r: Replacement): Result<EventValue, Error>
  {
    if Applies(r) && r.name !in e.params.entries then Failure(MissingParam(r.name))
    else if !Applies(r) then Success(e)
    else
      var p := e.params.entries[r.name];
      var p1 := if r.desc != "" then p.(description := r.desc) else p;
      var p2 := if r.overrideName != "" then p1.(overrideName := Some(r.overrideName)) else p1;
      Success(e.SetParam(r.name, p2))
  }

  /** `replaceParam`: the tuples in order; the first failing one aborts. */
  function ReplaceAll(e: EventValue, rs: seq<Replacement>): Result<EventValue, Error>
    decreases |rs|
  {
    if rs == [] then Success(e)
    else match ReplaceAll(e, rs[..|rs| - 1])
      case Failure(err) => Failure(err)
      case Success(e') => ReplaceOne(e', rs[|rs| - 1])
  }

  /** `o.modify(levt)` on the state of the event. */
  function PatchValue(e: EventValue, patch: Patch): Result<EventValue, Error>
  {
    match patch
    case SetParamType(k, t) => SetTypeValue(e, k, t)
    case ReplaceParam(rs) => ReplaceAll(e, rs)
  }

  /** `setType` override: fails exactly when the parameter is missing; otherwise it changes that
      parameter's type and nothing else, so keys, order, count and event name are kept. */
  lemma {:induction false} SetTypeValueSpec(e: EventValue, k: string, t: string)
    ensures SetTypeValue(e, k, t).Failure? <==> k !in e.params.entries
    ensures SetTypeValue(e, k, t).Failure? ==> SetTypeValue(e, k, t).error == MissingParam(k)
    ensures SetTypeValue(e, k, t).Success? ==>
      var r := SetTypeValue(e, k, t).value;
      && r.name == e.name && r.description == e.description
      && r.params.keys == e.params.keys && r.params.entries.Keys == e.params.entries.Keys
      && r.params.entries[k] == e.params.entries[k].(typeName := t)
      && r.params.entries[k].typeName == t
      && (forall j :: j in e.params.entries && j != k ==> r.params.entries[j] == e.params.entries[j])
      && (e.Valid() ==> r.Valid())
  {
  }

  /** Applying a `setType` override twice gives the same event as applying it once. */
  lemma {:induction false} SetTypeIdempotent(e: EventValue, k: string, t: string)
    requires SetTypeValue(e, k, t).Success?
    ensures SetTypeValue(SetTypeValue(e, k, t).value, k, t) == SetTypeValue(e, k, t)
  {
    var r := SetTypeValue(e, k, t).value;
    assert r.params.entries[k := r.params.entries[k].(typeName := t)] == r.params.entries;
  }

  /** A failed prefix of `replaceParam` is the failure of the whole call. */
  lemma {:induction false} ReplaceAllPrefixFailure(e: EventValue, rs: seq<Replacement>, n: nat)
    requires n <= |rs| && ReplaceAll(e, rs[..n]).Failure?
    ensures ReplaceAll(e, rs) == ReplaceAll(e, rs[..n])
    decreases |rs| - n
  {
    if n < |rs| {
      var init := rs[..|rs| - 1];
      assert init[..n] == rs[..n];
      ReplaceAllPrefixFailure(e, init, n);
    } else {
      assert rs[..n] == rs;
    }
  }

  /** `replaceParam` never adds, removes or reorders parameters, never changes the event's name
      or description, and changes no parameter's name, type or additional description. */
  lemma {:induction false} ReplaceAllShape(e: EventValue, rs: seq<Replacement>)
    requires ReplaceAll(e, rs).Success?
    ensures var r := ReplaceAll(e, rs).value;
      && r.name == e.name && r.description == e.description
      && r.params.keys == e.params.keys && r.params.entries.Keys == e.params.entries.Keys
      && forall k :: k in e.params.entries ==>
           && r.params.entries[k].name == e.params.entries[k].name
           && r.params.entries[k].typeName == e.params.entries[k].typeName
           && r.params.entries[k].additionalDescription == e.params.entries[k].additionalDescription
    decreases |rs|
  {
    if rs != [] {
      ReplaceAllShape(e, rs[..|rs| - 1]);
    }
  }

  /** `replaceParam` fails exactly when some tuple with something to apply names a missing
      parameter, and then with the first such tuple's name. */
  lemma {:induction false} ReplaceAllFails(e: EventValue, rs: seq<Replacement>)
    ensures ReplaceAll(e, rs).Failure? <==>
      exists i :: 0 <= i < |rs| && Applies(rs[i]) && rs[i].name !in e.params.entries
    ensures ReplaceAll(e, rs).Failure? ==>
      exists i :: 0 <= i < |rs| && Applies(rs[i]) && rs[i].name !in e.params.entries
        && (forall j :: 0 <= j < i ==> !Applies(rs[j]) || rs[j].name in e.params.entries)
        && ReplaceAll(e, rs).error == MissingParam(rs[i].name)
    decreases |rs|
  {
    if rs != [] {
      var n := |rs| - 1;
      var init := rs[..n];
      ReplaceAllFails(e, init);
      assert forall i :: 0 <= i < n ==> init[i] == rs[i];
      if ReplaceAll(e, init).Success? {
        ReplaceAllShape(e, init);
        if ReplaceAll(e, rs).Failure? {
          forall j | 0 <= j < n ensures !Applies(rs[j]) || rs[j].name in e.params.entries {
            assert init[j] == rs[j];
          }
        }
      } else {
        var i :| 0 <= i < n && Applies(init[i]) && init[i].name !in e.params.entries
          && (forall j :: 0 <= j < i ==> !Applies(init[j]) || init[j].name in e.params.entries)
          && ReplaceAll(e, init).error == MissingParam(init[i].name);
        assert rs[i] == init[i];
      }
    }
  }

  /** The description the last tuple for `k` with a non-empty description sets, if any. */
  function LastDesc(rs: seq<Replacement>, k: string): Option<string>
    decreases |rs|
  {
    if rs == [] then None
    else if rs[|rs| - 1].name == k && rs[|rs| - 1].desc != "" then Some(rs[|rs| - 1].desc)
    else LastDesc(rs[..|rs| - 1], k)
  }

  /** The override name the last tuple for `k` with a non-empty override name sets, if any. */
  function LastOverride(rs: seq<Replacement>, k: string): Option<string>
    decreases |rs|
  {
    if rs == [] then None
    else if rs[|rs| - 1].name == k && rs[|rs| - 1].overrideName != "" then Some(rs[|rs| - 1].overrideName)
    else LastOverride(rs[..|rs| - 1], k)
  }

  /** `LastDesc` is the description of the last tuple for `k` that has one, and `None` when no
      tuple for `k` has one. */
  lemma {:induction false} LastDescSpec(rs: seq<Replacement>, k: string)
    ensures LastDesc(rs, k).None? <==> forall i :: 0 <= i < |rs| && rs[i].name == k ==> rs[i].desc == ""
    ensures forall i :: (&& 0 <= i < |rs| && rs[i].name == k && rs[i].desc != ""
                         && (forall j :: i < j < |rs| && rs[j].name == k ==> rs[j].desc == ""))
                         ==> LastDesc(rs, k) == Some(rs[i].desc)
    decreases |rs|
  {
    if rs != [] {
      var n := |rs| - 1;
      var init := rs[..n];
      LastDescSpec(init, k);
      assert forall i :: 0 <= i < n ==> init[i] == rs[i];
    }
  }

  /** `LastOverride` is the override name of the last tuple for `k` that has one, and `None`
      when no tuple for `k` has one. */
  lemma {:induction false} LastOverrideSpec(rs: seq<Replacement>, k: string)
    ensures LastOverride(rs, k).None? <==> forall i :: 0 <= i < |rs| && rs[i].name == k ==> rs[i].overrideName == ""
    ensures forall i :: (&& 0 <= i < |rs| && rs[i].name == k && rs[i].overrideName != ""
                         && (forall j :: i < j < |rs| && rs[j].name == k ==> rs[j].overrideName == ""))
                         ==> LastOverride(rs, k) == Some(rs[i].overrideName)
    decreases |rs|
  {
    if rs != [] {
      var n := |rs| - 1;
      var init := rs[..n];
      LastOverrideSpec(init, k);
      assert forall i :: 0 <= i < n ==> init[i] == rs[i];
    }
  }

  /** After `replaceParam`, each parameter has the description and the override name of the
      last tuple for it that sets them (a later tuple wins), and keeps its own otherwise. */
  lemma {:induction false} ReplaceAllEntry(e: EventValue, rs: seq<Replacement>, k: string)
    requires ReplaceAll(e, rs).Success? && k in e.params.entries
    ensures k in ReplaceAll(e, rs).value.params.entries
    ensures ReplaceAll(e, rs).value.params.entries[k].description ==
      if LastDesc(rs, k).Some? then LastDesc(rs, k).value else e.params.entries[k].description
    ensures ReplaceAll(e, rs).value.params.entries[k].overrideName ==
      if LastOverride(rs, k).Some? then LastOverride(rs, k) else e.params.entries[k].overrideName
    decreases |rs|
  {
    if rs != [] {
      var init := rs[..|rs| - 1];
      ReplaceAllEntry(e, init, k);
      ReplaceAllShape(e, init);
    }
  }

  /** Applying the same `replaceParam` twice gives the same event as applying it once. */
  lemma {:induction false} ReplaceAllIdempotent(e: EventValue, rs: seq<Replacement>)
    requires ReplaceAll(e, rs).Success?
    ensures ReplaceAll(ReplaceAll(e, rs).value, rs) == ReplaceAll(e, rs)
  {
    var r := ReplaceAll(e, rs).value;
    ReplaceAllShape(e, rs);
    ReplaceAllFails(e, rs);
    ReplaceAllFails(r, rs);
    var r2 := ReplaceAll(r, rs).value;
    ReplaceAllShape(r, rs);
    forall k | k in r.params.entries ensures r2.params.entries[k] == r.params.entries[k] {
      ReplaceAllEntry(e, rs, k);
      ReplaceAllEntry(r, rs, k);
    }
    assert r2.params.entries == r.params.entries;
  }

  /** An override keeps the event's name, its parameter keys, their order and their count, and
      keeps every parameter filed under its own name. */
  lemma {:induction false} PatchShape(e: EventValue, patch: Patch)
    requires e.Valid() && PatchValue(e, patch).Success?
    ensures var r := PatchValue(e, patch).value;
      && r.Valid() && r.name == e.name && r.description == e.description
      && r.params.keys == e.params.keys && |r.params.keys| == |e.params.keys|
      && r.params.entries.Keys == e.params.entries.Keys
  {
    match patch
    case SetParamType(k, t) =>
      SetTypeValueSpec(e, k, t);
    case ReplaceParam(rs) =>
      ReplaceAllShape(e, rs);
  }

  /** Every override is idempotent. */
  lemma {:induction false} PatchIdempotent(e: EventValue, patch: Patch)
    requires PatchValue(e, patch).Success?
    ensures PatchValue(PatchValue(e, patch).value, patch) == PatchValue(e, patch)
  {
    match patch
    case SetParamType(k, t) =>
      SetTypeIdempotent(e, k, t);
    case ReplaceParam(rs) =>
      ReplaceAllIdempotent(e, rs);
  }

  // ---------------------------------------------------------------------------------------
  // Applying a patch to the objects in place

  /** `o.modify(levt)`: the setters called on the event's own parameter objects. On failure
      the source throws and the conversion is abandoned, so the state left behind is not
      described. */
  method ApplyPatch(e: Event, patch: Patch) returns (err: Option<Error>)
    requires e.Valid() && Injective(e.params)
    modifies e.params.entries.Values
    ensures err.Some? <==> PatchValue(old(e.Value()), patch).Failure?
    ensures err.Some? ==> err.value == PatchValue(old(e.Value()), patch).error
    ensures err.None? ==> e.Value() == PatchValue(old(e.Value()), patch).value && e.Valid()
  {
    match patch {
      case SetParamType(k, t) =>
        err := SetParamTypeInPlace(e, k, t);
      case ReplaceParam(rs) =>
        err := ReplaceParams(e, rs);
    }
    if err.None? {
      PatchShape(old(e.Value()), patch);
    }
  }

  /** `levt.params.get(k).setType(t)`. */
  method SetParamTypeInPlace(e: Event, k: string, t: string) returns (err: Option<Error>)
    requires Injective(e.params)
    modifies e.params.entries.Values
    ensures err.Some? <==> SetTypeValue(old(e.Value()), k, t).Failure?
    ensures err.Some? ==> err.value == SetTypeValue(old(e.Value()), k, t).error
    ensures err.None? ==> e.Value() == SetTypeValue(old(e.Value()), k, t).value
  {
    if k !in e.params.entries {
      return Some(MissingParam(k));
    }
    var par := e.params.entries[k];
    par.SetType(t);
    return None;
  }

  /** `replaceParam(levt, rs)`. */
  method ReplaceParams(e: Event, rs: seq<Replacement>) returns (err: Option<Error>)
    requires Injective(e.params)
    modifies e.params.entries.Values
    ensures err.Some? <==> ReplaceAll(old(e.Value()), rs).Failure?
    ensures err.Some? ==> err.value == ReplaceAll(old(e.Value()), rs).error
    ensures err.None? ==> e.Value() == ReplaceAll(old(e.Value()), rs).value
  {
    var i := 0;
    while i < |rs|
      invariant 0 <= i <= |rs|
      invariant ReplaceAll(old(e.Value()), rs[..i]) == Success(e.Value())
    {
      assert rs[..i + 1][..i] == rs[..i];
      assert ReplaceAll(old(e.Value()), rs[..i + 1]) == ReplaceOne(e.Value(), rs[i]);
      err := ReplaceOneInPlace(e, rs[i]);
      if err.Some? {
        ReplaceAllPrefixFailure(old(e.Value()), rs, i + 1);
        return;
      }
      i := i + 1;
    }
    assert rs[..i] == rs;
    return None;
  }

  /** One iteration of `replaceParam`. */
  method ReplaceOneInPlace(e: Event, r: Replacement) returns (err: Option<Error>)
    requires Injective(e.params)
    modifies e.params.entries.Values
    ensures err.Some? <==> ReplaceOne(old(e.Value()), r).Failure?
    ensures err.Some? ==> err.value == ReplaceOne(old(e.Value()), r).error
    ensures err.None? ==> e.Value() == ReplaceOne(old(e.Value()), r).value
  {
    if Applies(r) && r.name !in e.params.entries {
      return Some(MissingParam(r.name));
    }
    ghost var v := e.Value();
    if r.desc != "" {
      DescribeParam(e, r.name, r.desc);
    }
    if r.overrideName != "" {
      RenameParam(e, r.name, r.overrideName);
    }
    if Applies(r) {
      assert v.params.entries[r.name := e.Value().params.entries[r.name]] == e.Value().params.entries;
    }
    return None;
  }

  /** `par.setDescription(d)` on the parameter object filed under `k`. */
  method DescribeParam(e: Event, k: string, d: string)
    requires Injective(e.params) && k in e.params.entries
    modifies e.params.entries[k]
    ensures e.Value() == old(e.Value()).SetParam(k, old(e.Value()).params.entries[k].(description := d))
  {
    var par := e.params.entries[k];
    par.SetDescription(d);
    forall j | j in e.params.entries
      ensures ParamValues(e.params).entries[j] == old(ParamValues(e.params)).entries[k := par.Value()][j]
    {
      if j != k {
        assert e.params.entries[j] != par;
      }
    }
    assert ParamValues(e.params).entries == old(ParamValues(e.params)).entries[k := par.Value()];
  }

  /** `par.setOverrideName(n)` on the parameter object filed under `k`. */
  method RenameParam(e: Event, k: string, n: string)
    requires Injective(e.params) && k in e.params.entries
    modifies e.params.entries[k]
    ensures e.Value() == old(e.Value()).SetParam(k, old(e.Value()).params.entries[k].(overrideName := Some(n)))
  {
    var par := e.params.entries[k];
    par.SetOverrideName(n);
    forall j | j in e.params.entries
      ensures ParamValues(e.params).entries[j] == old(ParamValues(e.params)).entries[k := par.Value()][j]
    {
      if j != k {
        assert e.params.entries[j] != par;
      }
    }
    assert ParamValues(e.params).entries == old(ParamValues(e.params)).entries[k := par.Value()];
  }
}
