/** The LuaDoc (sumneko.lua) model of events and their parameters that the event-field
    generator builds from the documentation parser's output. */
module LDoc {
  import opened Common
  import opened OrderedMaps

  /** One parameter of an event, as the external documentation parser reports it. */
  datatype AstParam = AstParam(name: string, typeTag: string, description: string, additionalDescriptions: seq<string>)

  /** One event, as the external documentation parser reports it. */
  datatype AstEvent = AstEvent(name: string, description: seq<string>, parameters: seq<AstParam>)

  /** Why the generator aborts. */
  datatype Error =
    | UnknownType(tag: string)           // "no known type <tag>"
    | UnexpectedEventName(name: string)  // "Unexpected event name: <name>"
    | MissingParam(param: string)        // a method called on the `undefined` of a failed lookup

  /** The source type tags the documentation parser produces. */
  const SourceTags: set<string> := {"String", "Int", "Number", "Boolean", "Table", "Function", "Object"}

  /** The static table from parser type tags to LuaDoc type names; `None` is a missing entry. */
  function LDocType(tag: string): (r: Option<string>)
    ensures r.Some? ==> r.value != ""
  {
    match tag
    case "String" => Some("string")
    case "Int" => Some("integer")
    case "Number" => Some("number")
    case "Boolean" => Some("boolean")
    case "Table" => Some("table")
    case "Function" => Some("function")
    case "Object" => Some("any")
    case _ => None
  }

  /** The seven entries of the table, no two tags share a target, and every other tag
      has no entry. */
  lemma {:induction false} LDocTypeTable()
    ensures forall tag :: LDocType(tag).Some? <==> tag in SourceTags
    ensures LDocType("String") == Some("string")
    ensures LDocType("Int") == Some("integer")
    ensures LDocType("Number") == Some("number")
    ensures LDocType("Boolean") == Some("boolean")
    ensures LDocType("Table") == Some("table")
    ensures LDocType("Function") == Some("function")
    ensures LDocType("Object") == Some("any")
    ensures forall a, b :: a in SourceTags && b in SourceTags && a != b ==> LDocType(a) != LDocType(b)
  {
  }

  /** The state of one `LDocEventParam` object. */
  datatype ParamValue = ParamValue(
    name: string,
    typeName: string,
    description: string,
    additionalDescription: seq<string>,
    overrideName: Option<string>)
  {
    /** The exported name: the override when it is set and not empty (JavaScript `||`), else `name`. */
    function DisplayName(): (r: string)
      ensures overrideName.Some? && overrideName.value != "" ==> r == overrideName.value
      ensures overrideName.None? || overrideName.value == "" ==> r == name
    {
      if overrideName.Some? && overrideName.value != "" then overrideName.value else name
    }
  }

  /** `LDocEventParam.fromAst`: the parameter with its type looked up in the table. */
  function ParamFromAst(ast: AstParam): (r: Result<ParamValue, Error>)
    ensures r.Failure? <==> LDocType(ast.typeTag).None?
    ensures r.Failure? ==> r.error == UnknownType(ast.typeTag)
    ensures r.Success? ==> r.value.typeName == LDocType(ast.typeTag).value
    ensures r.Success? ==> && r.value.name == ast.name
                           && r.value.description == ast.description
                           && r.value.additionalDescription == ast.additionalDescriptions
                           && r.value.overrideName == None
  {
    match LDocType(ast.typeTag)
    case None => Failure(UnknownType(ast.typeTag))
    case Some(t) => Success(ParamValue(ast.name, t, ast.description, ast.additionalDescriptions, None))
  }

  /** The state of one `LDocEvent` object: its parameters keyed by name, in insertion order. */
  datatype EventValue = EventValue(name: string, description: seq<string>, params: OrderedMap<ParamValue>)
  {
    /** Every parameter is filed under its own name. */
    ghost predicate Valid()
    {
      && params.Valid()
      && forall k :: k in params.entries ==> params.entries[k].name == k
    }

    /** `addParam`: file `p` under `p.name`. */
    function AddParam(p: ParamValue): EventValue
    {
      this.(params := params.Put(p.name, p))
    }

    /** The parameter filed under `k` replaced by `v`, in place: what a setter called on that
        parameter object does to the event. */
    function SetParam(k: string, v: ParamValue): EventValue
    {
      this.(params := params.(entries := params.entries[k := v]))
    }
  }

  /** Re-adding a name replaces the parameter in its original position; a new name is appended. */
  lemma {:induction false} AddParamSpec(e: EventValue, p: ParamValue)
    requires e.Valid()
    ensures e.AddParam(p).Valid()
    ensures e.AddParam(p).name == e.name && e.AddParam(p).description == e.description
    ensures e.AddParam(p).params.entries == e.params.entries[p.name := p]
    ensures p.name in e.params.entries ==> e.AddParam(p).params.keys == e.params.keys
    ensures p.name !in e.params.entries ==> e.AddParam(p).params.keys == e.params.keys + [p.name]
    ensures |e.AddParam(p).params.keys| <= |e.params.keys| + 1
  {
    PutSpec(e.params, p.name, p);
  }

  /** The parameter loop of `fromAstArray` for one event, from state `e` on. */
  function AddParams(e: EventValue, ps: seq<AstParam>): Result<EventValue, Error>
    decreases |ps|
  {
    if ps == [] then Success(e)
    else match ParamFromAst(ps[0])
      case Failure(err) => Failure(err)
      case Success(p) => AddParams(e.AddParam(p), ps[1..])
  }

  /** One step of the parameter loop. */
  lemma {:induction false} AddParamsStep(e: EventValue, ps: seq<AstParam>, k: nat)
    requires k < |ps|
    ensures ParamFromAst(ps[k]).Failure? ==> AddParams(e, ps[k..]) == Failure(ParamFromAst(ps[k]).error)
    ensures ParamFromAst(ps[k]).Success? ==>
      AddParams(e, ps[k..]) == AddParams(e.AddParam(ParamFromAst(ps[k]).value), ps[k + 1..])
  {
    assert ps[k..][0] == ps[k];
    assert ps[k..][1..] == ps[k + 1..];
  }

  /** One iteration of `fromAstArray`: a new event filled with the AST event's parameters. */
  function EventFromAst(ast: AstEvent): Result<EventValue, Error>
  {
    AddParams(EventValue(ast.name, ast.description, Empty()), ast.parameters)
  }

  /** `fromAstArray`: every AST event converted, in order; the first unknown type tag aborts. */
  function EventsFromAst(asts: seq<AstEvent>): Result<seq<EventValue>, Error>
  {
    if asts == [] then Success([])
    else match EventFromAst(asts[0])
      case Failure(err) => Failure(err)
      case Success(e) =>
        match EventsFromAst(asts[1..])
        case Failure(err) => Failure(err)
        case Success(es) => Success([e] + es)
  }

  /** The names of a parameter list, in order. */
  function Names(ps: seq<AstParam>): (r: seq<string>)
    ensures |r| == |ps| && forall i :: 0 <= i < |ps| ==> r[i] == ps[i].name
    decreases |ps|
  {
    if ps == [] then [] else [ps[0].name] + Names(ps[1..])
  }

  /** Adding parameters fails exactly when some tag is unknown, and then with the first
      unknown tag. */
  lemma {:induction false} AddParamsFails(e: EventValue, ps: seq<AstParam>)
    ensures AddParams(e, ps).Success? <==> forall i :: 0 <= i < |ps| ==> LDocType(ps[i].typeTag).Some?
    ensures AddParams(e, ps).Failure? ==>
      exists i :: 0 <= i < |ps| && LDocType(ps[i].typeTag).None?
        && (forall j :: 0 <= j < i ==> LDocType(ps[j].typeTag).Some?)
        && AddParams(e, ps).error == UnknownType(ps[i].typeTag)
    decreases |ps|
  {
    if ps != [] && ParamFromAst(ps[0]).Success? {
      var rest := ps[1..];
      AddParamsFails(e.AddParam(ParamFromAst(ps[0]).value), rest);
      assert forall i :: 0 <= i < |rest| ==> rest[i] == ps[i + 1];
      if AddParams(e, ps).Failure? {
        var i :| 0 <= i < |rest| && LDocType(rest[i].typeTag).None?
          && (forall j :: 0 <= j < i ==> LDocType(rest[j].typeTag).Some?)
          && AddParams(e, ps).error == UnknownType(rest[i].typeTag);
        assert LDocType(ps[i + 1].typeTag).None?;
      }
    }
  }

  /** A successful build keeps the event's name and description, stays valid, keeps every
      name already present, files every parameter name, and adds at most one key per
      parameter. */
  lemma {:induction false} AddParamsSucceeds(e: EventValue, ps: seq<AstParam>)
    requires e.Valid()
    requires AddParams(e, ps).Success?
    ensures var r := AddParams(e, ps).value;
      && r.Valid() && r.name == e.name && r.description == e.description
      && (forall k :: k in e.params.entries ==> k in r.params.entries)
      && (forall i :: 0 <= i < |ps| ==> ps[i].name in r.params.entries)
      && |r.params.keys| <= |e.params.keys| + |ps|
    decreases |ps|
  {
    if ps != [] {
      var p := ParamFromAst(ps[0]).value;
      AddParamSpec(e, p);
      var rest := ps[1..];
      AddParamsSucceeds(e.AddParam(p), rest);
      assert forall i :: 0 <= i < |rest| ==> rest[i] == ps[i + 1];
    }
  }

  /** Adding parameters none of which is named `k` keeps the entry under `k`. */
  lemma {:induction false} AddParamsKeeps(e: EventValue, ps: seq<AstParam>, k: string)
    requires AddParams(e, ps).Success?
    requires k in e.params.entries
    requires k !in Names(ps)
    ensures k in AddParams(e, ps).value.params.entries
    ensures AddParams(e, ps).value.params.entries[k] == e.params.entries[k]
    decreases |ps|
  {
    if ps != [] {
      AddParamsKeeps(e.AddParam(ParamFromAst(ps[0]).value), ps[1..], k);
    }
  }

  /** The parameter names are pairwise distinct and none of them is in `taken`. */
  ghost predicate FreshNames(ps: seq<AstParam>, taken: set<string>)
    decreases |ps|
  {
    ps == [] || (ps[0].name !in taken && FreshNames(ps[1..], taken + {ps[0].name}))
  }

  lemma {:induction false} FreshNamesIff(ps: seq<AstParam>, taken: set<string>)
    ensures FreshNames(ps, taken) <==>
      && (forall i, j :: 0 <= i < j < |ps| ==> ps[i].name != ps[j].name)
      && (forall i :: 0 <= i < |ps| ==> ps[i].name !in taken)
    decreases |ps|
  {
    if ps != [] {
      var rest := ps[1..];
      FreshNamesIff(rest, taken + {ps[0].name});
      assert forall i :: 0 <= i < |rest| ==> rest[i] == ps[i + 1];
      if FreshNames(ps, taken) {
        forall i, j | 0 <= i < j < |ps| ensures ps[i].name != ps[j].name {
          if i > 0 {
            assert ps[i] == rest[i - 1] && ps[j] == rest[j - 1];
          }
        }
      }
    }
  }

  /** With distinct names not yet present, the parameters are appended in list order. */
  lemma {:induction false} AddParamsDistinct(e: EventValue, ps: seq<AstParam>)
    requires AddParams(e, ps).Success?
    requires FreshNames(ps, e.params.entries.Keys)
    ensures AddParams(e, ps).value.params.keys == e.params.keys + Names(ps)
    decreases |ps|
  {
    if ps != [] {
      var e' := e.AddParam(ParamFromAst(ps[0]).value);
      assert e'.params.keys == e.params.keys + [ps[0].name];
      assert e'.params.entries.Keys == e.params.entries.Keys + {ps[0].name};
      AddParamsDistinct(e', ps[1..]);
    }
  }

  /** With distinct names not yet present, each parameter is filed under its name with the
      looked-up type. */
  lemma {:induction false} AddParamsDistinctEntries(e: EventValue, ps: seq<AstParam>)
    requires AddParams(e, ps).Success?
    requires FreshNames(ps, e.params.entries.Keys)
    ensures forall i :: 0 <= i < |ps| ==> ps[i].name in AddParams(e, ps).value.params.entries
    ensures forall i :: 0 <= i < |ps| ==>
      Success(AddParams(e, ps).value.params.entries[ps[i].name]) == ParamFromAst(ps[i])
    decreases |ps|
  {
    if ps != [] {
      var p := ParamFromAst(ps[0]).value;
      var e' := e.AddParam(p);
      var rest := ps[1..];
      assert e'.params.entries.Keys == e.params.entries.Keys + {ps[0].name};
      AddParamsDistinctEntries(e', rest);
      FreshNamesIff(rest, e'.params.entries.Keys);
      assert ps[0].name !in Names(rest);
      AddParamsKeeps(e', rest, ps[0].name);
      var r := AddParams(e', rest).value;
      forall i | 0 <= i < |ps|
        ensures ps[i].name in r.params.entries
        ensures Success(r.params.entries[ps[i].name]) == ParamFromAst(ps[i])
      {
        if i > 0 {
          assert ps[i] == rest[i - 1];
        }
      }
    }
  }

  /** Every event built from an AST event keeps its name and description and files each
      parameter under its own name. */
  lemma {:induction false} EventFromAstValid(ast: AstEvent)
    ensures EventFromAst(ast).Success? ==> EventFromAst(ast).value.Valid()
    ensures EventFromAst(ast).Success? ==>
      EventFromAst(ast).value.name == ast.name && EventFromAst(ast).value.description == ast.description
  {
    if EventFromAst(ast).Success? {
      AddParamsSucceeds(EventValue(ast.name, ast.description, Empty()), ast.parameters);
    }
  }

  /** `fromAstArray` gives one event per AST event, in input order, or the error of the
      first AST event that fails. */
  lemma {:induction false} EventsFromAstSpec(asts: seq<AstEvent>)
    ensures EventsFromAst(asts).Success? <==> forall i :: 0 <= i < |asts| ==> EventFromAst(asts[i]).Success?
    ensures EventsFromAst(asts).Success? ==>
      && |EventsFromAst(asts).value| == |asts|
      && forall i :: 0 <= i < |asts| ==> EventFromAst(asts[i]) == Success(EventsFromAst(asts).value[i])
    ensures EventsFromAst(asts).Failure? ==>
      exists i :: 0 <= i < |asts|
        && (forall j :: 0 <= j < i ==> EventFromAst(asts[j]).Success?)
        && EventFromAst(asts[i]) == Failure(EventsFromAst(asts).error)
  {
    if asts != [] {
      EventsFromAstSpec(asts[1..]);
      assert forall i :: 1 <= i < |asts| ==> asts[i] == asts[1..][i - 1];
      if EventFromAst(asts[0]).Success? && EventsFromAst(asts[1..]).Failure? {
        var i :| 0 <= i < |asts[1..]|
          && (forall j :: 0 <= j < i ==> EventFromAst(asts[1..][j]).Success?)
          && EventFromAst(asts[1..][i]) == Failure(EventsFromAst(asts[1..]).error);
        assert EventFromAst(asts[i + 1]) == Failure(EventsFromAst(asts).error);
      }
    }
  }

  /** The error of `fromAstArray` is that of the first AST event that fails. */
  lemma {:induction false} EventsFromAstFirstFailure(asts: seq<AstEvent>, i: nat)
    requires i < |asts| && EventFromAst(asts[i]).Failure?
    requires forall j :: 0 <= j < i ==> EventFromAst(asts[j]).Success?
    ensures EventsFromAst(asts) == Failure(EventFromAst(asts[i]).error)
  {
    EventsFromAstSpec(asts);
    var i' :| 0 <= i' < |asts|
      && (forall j :: 0 <= j < i' ==> EventFromAst(asts[j]).Success?)
      && EventFromAst(asts[i']) == Failure(EventsFromAst(asts).error);
    assert i' == i;
  }

  /** The states of the parameter objects of a map, under the same keys in the same order. */
  function ParamValues(m: OrderedMap<Param>): (r: OrderedMap<ParamValue>)
    reads m.entries.Values
    ensures r.keys == m.keys && r.entries.Keys == m.entries.Keys
  {
    OrderedMap(m.keys, map k | k in m.entries :: m.entries[k].Value())
  }

  /** No parameter object is filed under two names. */
  ghost predicate Injective(m: OrderedMap<Param>)
  {
    forall j, k :: j in m.entries && k in m.entries && j != k ==> m.entries[j] != m.entries[k]
  }

  lemma {:induction false} InjectivePut(m: OrderedMap<Param>, p: Param)
    requires Injective(m) && p !in m.entries.Values
    ensures Injective(m.Put(p.name, p))
  {
    var m' := m.Put(p.name, p);
    forall j, k | j in m'.entries && k in m'.entries && j != k
      ensures m'.entries[j] != m'.entries[k]
    {
      if j != p.name && k != p.name {
        assert m'.entries[j] == m.entries[j] && m'.entries[k] == m.entries[k];
      } else if j == p.name {
        assert m'.entries[k] == m.entries[k] && m.entries[k] in m.entries.Values;
      } else {
        assert m'.entries[j] == m.entries[j] && m.entries[j] in m.entries.Values;
      }
    }
  }

  lemma {:induction false} ParamValuesPut(m: OrderedMap<Param>, p: Param)
    ensures ParamValues(m.Put(p.name, p)) == ParamValues(m).Put(p.name, p.Value())
  {
    var l := ParamValues(m.Put(p.name, p));
    var r := ParamValues(m).Put(p.name, p.Value());
    assert l.keys == r.keys;
    assert l.entries == r.entries;
  }

  /** `LDocEventParam`. */
  class Param {
    var name: string
    var typeName: string
    var description: string
    var additionalDescription: seq<string>
    var overrideName: Option<string>

    /** The whole state of the object. */
    function Value(): ParamValue
      reads this
    {
      ParamValue(name, typeName, description, additionalDescription, overrideName)
    }

    constructor (name: string, typeName: string, description: string, additionalDescription: seq<string>)
      ensures Value() == ParamValue(name, typeName, description, additionalDescription, None)
    {
      this.name := name;
      this.typeName := typeName;
      this.description := description;
      this.additionalDescription := additionalDescription;
      this.overrideName := None;
    }

    /** `fromAst`: a new parameter object, or the unknown-type error. */
    static method FromAst(ast: AstParam) returns (r: Result<Param, Error>)
      ensures r.Failure? ==> ParamFromAst(ast) == Failure(r.error)
      ensures r.Success? ==> fresh(r.value) && ParamFromAst(ast) == Success(r.value.Value())
    {
      var t := LDocType(ast.typeTag);
      if t.None? {
        return Failure(UnknownType(ast.typeTag));
      }
      var p := new Param(ast.name, t.value, ast.description, ast.additionalDescriptions);
      return Success(p);
    }

    method SetDescription(d: string)
      modifies this
      ensures Value() == old(Value()).(description := d)
    {
      description := d;
    }

    /** `addDescription`: exactly one more element, at the end. */
    method AddDescription(d: string)
      modifies this
      ensures Value() == old(Value()).(additionalDescription := old(additionalDescription) + [d])
    {
      additionalDescription := additionalDescription + [d];
    }

    /** `setOverrideName`: the display name changes, `name` (the map key) does not. */
    method SetOverrideName(n: string)
      modifies this
      ensures Value() == old(Value()).(overrideName := Some(n))
      ensures name == old(name)
    {
      overrideName := Some(n);
    }

    method SetType(t: string)
      modifies this
      ensures Value() == old(Value()).(typeName := t)
    {
      typeName := t;
    }
  }

  /** `LDocEvent`. */
  class Event {
    var name: string
    var description: seq<string>
    var params: OrderedMap<Param>

    /** Every parameter object is filed under its own name. */
    ghost predicate Valid()
      reads this, params.entries.Values
    {
      Value().Valid()
    }

    /** The whole state of the event and of its parameter objects. */
    function Value(): EventValue
      reads this, params.entries.Values
    {
      EventValue(name, description, ParamValues(params))
    }

    constructor (name: string, description: seq<string>)
      ensures Valid() && Value() == EventValue(name, description, Empty())
      ensures params.entries == map[]
    {
      this.name := name;
      this.description := description;
      this.params := Empty();
    }

    /** `addParam`: file `p` under `p.name`, replacing in place any parameter of that name. */
    method AddParam(p: Param)
      requires Valid()
      modifies this
      ensures params == old(params).Put(p.name, p)
      ensures params.entries.Values <= old(params.entries.Values) + {p}
      ensures Value() == old(Value()).AddParam(p.Value())
      ensures Valid()
    {
      PutSpec(params, p.name, p);
      ParamValuesPut(params, p);
      var v := Value().AddParam(p.Value());
      AddParamSpec(Value(), p.Value());
      params := params.Put(p.name, p);
      assert Value() == v;
    }

    /** `setDescription` with a string: a one-element description. */
    method SetDescription(d: string)
      modifies this
      ensures description == [d]
      ensures name == old(name) && params == old(params)
    {
      description := [d];
    }

    /** `setDescription` with an array: the array becomes the description. */
    method SetDescriptionLines(ds: seq<string>)
      modifies this
      ensures description == ds
      ensures name == old(name) && params == old(params)
    {
      description := ds;
    }

    /** `pushDescription`: an empty line, then the text. */
    method PushDescription(d: string)
      modifies this
      ensures description == old(description) + ["", d]
      ensures name == old(name) && params == old(params)
    {
      description := description + [""];
      description := description + [d];
    }

    /** One iteration of `fromAstArray`: a new event holding new parameter objects built from
        the AST event's parameters, in order; or the error of the first unknown type tag. */
    static method FromAst(ast: AstEvent) returns (r: Result<Event, Error>)
      ensures r.Failure? ==> EventFromAst(ast) == Failure(r.error)
      ensures r.Success? ==> && fresh(r.value) && fresh(r.value.params.entries.Values)
                             && r.value.Valid() && EventFromAst(ast) == Success(r.value.Value())
                             && Injective(r.value.params)
    {
      var ev := new Event(ast.name, ast.description);
      var k := 0;
      while k < |ast.parameters|
        invariant 0 <= k <= |ast.parameters|
        invariant fresh(ev) && fresh(ev.params.entries.Values) && ev.Valid() && Injective(ev.params)
        invariant AddParams(ev.Value(), ast.parameters[k..]) == EventFromAst(ast)
      {
        AddParamsStep(ev.Value(), ast.parameters, k);
        label before:
        var p := Param.FromAst(ast.parameters[k]);
        assert unchanged@before(ev) && unchanged@before(ev.params.entries.Values);
        if p.Failure? {
          return Failure(p.error);
        }
        InjectivePut(ev.params, p.value);
        ev.AddParam(p.value);
        k := k + 1;
      }
      return Success(ev);
    }

    /** `fromAstArray`: one new event per AST event, in order, each with its own new parameter
        objects; or the error of the first unknown type tag. */
    static method FromAstArray(asts: seq<AstEvent>) returns (r: Result<seq<Event>, Error>)
      ensures r.Failure? ==> EventsFromAst(asts) == Failure(r.error)
      ensures r.Success? ==>
        && EventsFromAst(asts).Success?
        && |r.value| == |asts| == |EventsFromAst(asts).value|
        && forall i :: 0 <= i < |asts| ==>
             && r.value[i].Valid()
             && r.value[i].Value() == EventsFromAst(asts).value[i]
             && Injective(r.value[i].params)
      ensures r.Success? ==> forall i :: 0 <= i < |r.value| ==>
        fresh(r.value[i]) && fresh(r.value[i].params.entries.Values)
      ensures r.Success? ==> Separate(r.value)
    {
      var ret: seq<Event> := [];
      var i := 0;
      while i < |asts|
        invariant 0 <= i <= |asts|
        invariant |ret| == i && Built(ret, asts)
        invariant fresh(set e | e in ret) && fresh(ParamObjects(ret))
      {
        ghost var objs := ParamObjects(ret);
        label before:
        var ev := FromAst(asts[i]);
        assert unchanged@before(set e | e in ret);
        assert unchanged@before(objs);
        assert Built(ret, asts);
        if ev.Failure? {
          EventsFromAstFirstFailure(asts, i);
          return Failure(ev.error);
        }
        BuiltAppend(ret, asts, ev.value);
        ParamObjectsAppend(ret, ev.value);
        ret := ret + [ev.value];
        i := i + 1;
      }
      BuiltSpec(ret, asts);
      assert forall j :: 0 <= j < |ret| ==> ret[j] in set e | e in ret;
      return Success(ret);
    }
  }

  /** Distinct events that share no parameter object. */
  ghost predicate Separate(evs: seq<Event>)
    reads set e | e in evs
  {
    forall j, l :: 0 <= j < l < |evs| ==>
      evs[j] != evs[l] && evs[j].params.entries.Values !! evs[l].params.entries.Values
  }

  /** The parameter objects of a list of events. */
  ghost function ParamObjects(evs: seq<Event>): set<Param>
    reads set e | e in evs
  {
    set e, p | e in evs && p in e.params.entries.Values :: p
  }

  /** `evs` are separate events, the `j`-th built from `asts[j]` with no parameter object filed twice. */
  ghost predicate Built(evs: seq<Event>, asts: seq<AstEvent>)
    reads set e | e in evs
    reads ParamObjects(evs)
  {
    && |evs| <= |asts|
    && (forall j :: 0 <= j < |evs| ==> evs[j].params.entries.Values <= ParamObjects(evs))
    && (forall j :: 0 <= j < |evs| ==> EventFromAst(asts[j]) == Success(evs[j].Value()) && Injective(evs[j].params))
    && Separate(evs)
  }

  lemma {:induction false} BuiltAppend(evs: seq<Event>, asts: seq<AstEvent>, ev: Event)
    requires Built(evs, asts) && |evs| < |asts|
    requires EventFromAst(asts[|evs|]) == Success(ev.Value()) && Injective(ev.params)
    requires forall j :: 0 <= j < |evs| ==> evs[j] != ev && evs[j].params.entries.Values !! ev.params.entries.Values
    ensures Built(evs + [ev], asts)
  {
    var evs' := evs + [ev];
    assert forall j :: 0 <= j < |evs| ==> evs'[j] == evs[j];
    assert evs'[|evs|] == ev;
    forall j | 0 <= j < |evs'| ensures evs'[j].params.entries.Values <= ParamObjects(evs') {
      assert evs'[j] in evs';
    }
    forall j | 0 <= j < |evs'|
      ensures EventFromAst(asts[j]) == Success(evs'[j].Value()) && Injective(evs'[j].params)
    {
    }
    assert Separate(evs');
  }

  lemma {:induction false} ParamObjectsAppend(evs: seq<Event>, ev: Event)
    ensures ParamObjects(evs + [ev]) == ParamObjects(evs) + ev.params.entries.Values
  {
    var evs' := evs + [ev];
    assert forall e :: e in evs' <==> e in evs || e == ev;
  }

  lemma {:induction false} BuiltSpec(evs: seq<Event>, asts: seq<AstEvent>)
    requires Built(evs, asts) && |evs| == |asts|
    ensures EventsFromAst(asts).Success? && |EventsFromAst(asts).value| == |asts|
    ensures forall i :: 0 <= i < |asts| ==>
      && evs[i].Valid()
      && evs[i].Value() == EventsFromAst(asts).value[i]
      && Injective(evs[i].params)
  {
    EventsFromAstSpec(asts);
    forall i | 0 <= i < |asts| ensures evs[i].Valid() {
      EventFromAstValid(asts[i]);
    }
  }
}
