/** `eventFieldsConverter.convert`: one LuaDoc `@field on` overload per documented event. */
module EventFieldsConverter {
  import opened Common
  import opened OrderedMaps
  import opened LDoc
  import opened EventOverrides

  const SelfType: string := "mousebase.TfmEvents"

  /** The generic overload that always comes first. */
  function Preamble(): string
  {
    "--- @field on fun(self:" + SelfType + ", eventName:mousebase.TfmEvents.Events, listener:function)):" + SelfType
  }

  /** A regular-expression word character, `\w`. */
  predicate IsWordChar(c: char)
  {
    ('a' <= c <= 'z') || ('A' <= c <= 'Z') || ('0' <= c <= '9') || c == '_'
  }

  predicate AllWordChars(s: string)
  {
    forall i :: 0 <= i < |s| ==> IsWordChar(s[i])
  }

  /** `name.match(/^event(\w+)$/)`: the captured group, or no match. */
  function MatchEventName(name: string): Option<string>
  {
    if |name| > 5 && name[..5] == "event" && AllWordChars(name[5..]) then Some(name[5..]) else None
  }

  /** A match gives back the identifier after the `event` prefix, and every `event` followed by
      one or more word characters matches with that identifier. */
  lemma {:induction false} MatchEventNameSpec(name: string, x: string)
    ensures MatchEventName(name).Some? ==>
      && name == "event" + MatchEventName(name).value
      && |MatchEventName(name).value| >= 1 && AllWordChars(MatchEventName(name).value)
    ensures |x| >= 1 && AllWordChars(x) ==> MatchEventName("event" + x) == Some(x)
    ensures MatchEventName("event") == None
  {
    var n := "event" + x;
    assert n[..5] == "event" && n[5..] == x;
  }

  /** Every name that is not `event` followed by one or more word characters is rejected: a name
      without the prefix, the bare prefix, and a name with any other character after it. */
  lemma {:induction false} MatchEventNameRejects(name: string)
    ensures MatchEventName(name).None? <==> forall x :: |x| >= 1 && AllWordChars(x) ==> name != "event" + x
    ensures |name| < 5 || name[..5] != "event" ==> MatchEventName(name).None?
    ensures forall i :: 5 <= i < |name| && !IsWordChar(name[i]) ==> MatchEventName(name).None?
    ensures MatchEventName("onFoo") == None && MatchEventName("event Foo") == None
  {
    if MatchEventName(name).Some? {
      var x := name[5..];
      assert name == "event" + x;
    } else {
      forall x | |x| >= 1 && AllWordChars(x) ensures name != "event" + x {
        MatchEventNameSpec(name, x);
      }
    }
    assert !IsWordChar("event Foo"[5]);
  }

  /** One parameter as `displayName:type`. */
  function ParamString(p: ParamValue): string
  {
    p.DisplayName() + ":" + p.typeName
  }

  function ParamStrings(ps: seq<ParamValue>): (r: seq<string>)
    ensures |r| == |ps|
    ensures forall i :: 0 <= i < |ps| ==> r[i] == ParamString(ps[i])
  {
    seq(|ps|, i requires 0 <= i < |ps| => ParamString(ps[i]))
  }

  /** The overload for the event with public identifier `id` whose listener takes `paramList`. */
  function Overload(id: string, paramList: string): string
  {
    "--- @field on fun(self:" + SelfType + ", eventName:'\"" + id + "\"', listener:fun(" + paramList + ")):" + SelfType
  }

  /** The overload for the event with public identifier `id` and parameters `ps`, in order,
      joined by `", "`. */
  function EventLine(id: string, ps: seq<ParamValue>): string
  {
    Overload(id, Join(ParamStrings(ps), ", "))
  }

  /** The event after the override registered under its name, if any (`overrides[e.name]`,
      then `o.modify(e)`). */
  function Patched(e: EventValue, table: map<string, Override>): Result<EventValue, Error>
  {
    if e.name in table then PatchValue(e, table[e.name].patch) else Success(e)
  }

  /** An override keeps the event valid. */
  lemma {:induction false} PatchedValid(e: EventValue, table: map<string, Override>)
    requires e.Valid() && Patched(e, table).Success?
    ensures Patched(e, table).value.Valid()
    ensures Patched(e, table).value.params.keys == e.params.keys
  {
    if e.name in table {
      PatchShape(e, table[e.name].patch);
    }
  }

  /** One iteration of the loop of `convert` on an event built from the AST: the name check,
      the override registered under the event's name, then the line. */
  function ConvertEvent(e: EventValue, table: map<string, Override>): Result<string, Error>
    requires e.Valid()
  {
    match MatchEventName(e.name)
    case None => Failure(UnexpectedEventName(e.name))
    case Some(id) =>
      match Patched(e, table)
      case Failure(err) => Failure(err)
      case Success(e') =>
        assert e'.Valid() by { PatchedValid(e, table); }
        Success(EventLine(id, e'.params.Values()))
  }

  ghost predicate AllValid(es: seq<EventValue>)
  {
    forall i :: 0 <= i < |es| ==> es[i].Valid()
  }

  /** The outcome of converting each event on its own, in order. */
  function EventResults(es: seq<EventValue>, table: map<string, Override>): (rs: seq<Result<string, Error>>)
    requires AllValid(es)
    ensures |rs| == |es|
    ensures forall i :: 0 <= i < |es| ==> rs[i] == ConvertEvent(es[i], table)
  {
    if es == [] then [] else [ConvertEvent(es[0], table)] + EventResults(es[1..], table)
  }

  lemma {:induction false} EventsFromAstValid(asts: seq<AstEvent>)
    ensures EventsFromAst(asts).Success? ==> AllValid(EventsFromAst(asts).value)
  {
    if EventsFromAst(asts).Success? {
      EventsFromAstSpec(asts);
      forall i | 0 <= i < |asts| ensures EventsFromAst(asts).value[i].Valid() {
        EventFromAstValid(asts[i]);
      }
    }
  }

  /** `convert`: every event is built first (so an unknown type tag anywhere wins), then the
      preamble and one line per event. */
  function ConvertSpec(asts: seq<AstEvent>, table: map<string, Override>): Result<seq<string>, Error>
  {
    match EventsFromAst(asts)
    case Failure(err) => Failure(err)
    case Success(es) =>
      assert AllValid(es) by { EventsFromAstValid(asts); }
      match Collect(EventResults(es, table))
      case Failure(err) => Failure(err)
      case Success(ls) => Success([Preamble()] + ls)
  }

  // ---------------------------------------------------------------------------------------
  // Properties of the conversion

  /** A successful conversion is the preamble followed by one line per AST event, in input
      order; the line of `event<X>` names `X` and lists the parameters of the event built from
      the AST, after its override, as `displayName:type` in map order. */
  lemma {:induction false} ConvertShape(asts: seq<AstEvent>, table: map<string, Override>, i: nat)
    requires ConvertSpec(asts, table).Success? && i < |asts|
    ensures |ConvertSpec(asts, table).value| == 1 + |asts|
    ensures ConvertSpec(asts, table).value[0] == Preamble()
    ensures EventFromAst(asts[i]).Success?
    ensures MatchEventName(asts[i].name).Some?
    ensures Patched(EventFromAst(asts[i]).value, table).Success?
    ensures Patched(EventFromAst(asts[i]).value, table).value.Valid()
    ensures ConvertSpec(asts, table).value[i + 1]
         == EventLine(MatchEventName(asts[i].name).value, Patched(EventFromAst(asts[i]).value, table).value.params.Values())
  {
    EventsFromAstSpec(asts);
    EventsFromAstValid(asts);
    var es := EventsFromAst(asts).value;
    var rs := EventResults(es, table);
    CollectSpec(rs);
    var e := es[i];
    EventFromAstValid(asts[i]);
    assert rs[i] == ConvertEvent(e, table);
    assert rs[i].Success?;
    var id := MatchEventName(e.name).value;
    var e' := Patched(e, table).value;
    PatchedValid(e, table);
    assert rs[i] == Success(EventLine(id, e'.params.Values()));
    assert ConvertSpec(asts, table) == Success([Preamble()] + Collect(rs).value);
  }

  /** An unknown type tag in any event aborts with the first such tag, before any name is
      checked. */
  lemma {:induction false} ConvertUnknownType(asts: seq<AstEvent>, table: map<string, Override>)
    requires EventsFromAst(asts).Failure?
    ensures ConvertSpec(asts, table) == Failure(EventsFromAst(asts).error)
    ensures EventsFromAst(asts).error.UnknownType?
  {
    EventsFromAstSpec(asts);
    var i :| 0 <= i < |asts| && EventFromAst(asts[i]) == Failure(EventsFromAst(asts).error);
    AddParamsFails(EventValue(asts[i].name, asts[i].description, Empty()), asts[i].parameters);
  }

  /** One AST event on its own: built, then converted. */
  function ConvertAst(ast: AstEvent, table: map<string, Override>): Result<string, Error>
  {
    match EventFromAst(ast)
    case Failure(err) => Failure(err)
    case Success(e) =>
      assert e.Valid() by { EventFromAstValid(ast); }
      ConvertEvent(e, table)
  }

  /** An event name that does not match `^event(\w+)$` aborts the conversion; when every
      earlier event converts, the error names it. */
  lemma {:induction false} ConvertBadName(asts: seq<AstEvent>, table: map<string, Override>, i: nat)
    requires EventsFromAst(asts).Success? && i < |asts| && MatchEventName(asts[i].name).None?
    ensures ConvertSpec(asts, table).Failure?
    ensures (forall j :: 0 <= j < i ==> ConvertAst(asts[j], table).Success?) ==>
      ConvertSpec(asts, table) == Failure(UnexpectedEventName(asts[i].name))
  {
    EventsFromAstSpec(asts);
    EventsFromAstValid(asts);
    var es := EventsFromAst(asts).value;
    EventFromAstValid(asts[i]);
    var rs := EventResults(es, table);
    assert rs[i] == ConvertEvent(es[i], table) == Failure(UnexpectedEventName(asts[i].name));
    CollectSpec(rs);
    if forall j :: 0 <= j < i ==> ConvertAst(asts[j], table).Success? {
      assert forall j :: 0 <= j < i ==> rs[j] == ConvertAst(asts[j], table);
      CollectFirstFailure(rs, i);
    }
  }

  /** A single AST event converts to the preamble and its own line, or fails as it does. */
  lemma {:induction false} SingleEvent(ast: AstEvent, table: map<string, Override>)
    requires EventFromAst(ast).Success?
    ensures ConvertAst(ast, table).Success? ==> ConvertSpec([ast], table) == Success([Preamble(), ConvertAst(ast, table).value])
    ensures ConvertAst(ast, table).Failure? ==> ConvertSpec([ast], table) == Failure(ConvertAst(ast, table).error)
  {
    var e := EventFromAst(ast).value;
    EventFromAstValid(ast);
    assert [ast][0] == ast && [ast][1..] == [];
    assert EventsFromAst([]) == Success([]);
    assert [e] + [] == [e];
    assert EventsFromAst([ast]) == Success([e]);
    var rs := EventResults([e], table);
    assert rs == [ConvertAst(ast, table)];
    assert rs[..0] == [] && Collect(rs[..0]) == Success([]);
    if ConvertAst(ast, table).Success? {
      assert Collect(rs) == Success([] + [ConvertAst(ast, table).value]);
      assert [Preamble()] + ([] + [ConvertAst(ast, table).value]) == [Preamble(), ConvertAst(ast, table).value];
    } else {
      assert Collect(rs) == Failure(ConvertAst(ast, table).error);
    }
  }

  /** The event built from an AST event with one parameter of a known tag. */
  lemma {:induction false} OneParamEvent(name: string, desc: seq<string>, p: AstParam)
    requires LDocType(p.typeTag).Some?
    ensures EventFromAst(AstEvent(name, desc, [p]))
         == Success(EventValue(name, desc, OrderedMap([p.name], map[p.name := ParamFromAst(p).value])))
  {
    var e0 := EventValue(name, desc, Empty());
    var pv := ParamFromAst(p).value;
    assert [p][0] == p && [p][1..] == [];
    assert AddParams(e0, [p]) == AddParams(e0.AddParam(pv), []);
    assert e0.params.keys + [p.name] == [p.name];
    assert e0.AddParam(pv) == EventValue(name, desc, OrderedMap([p.name], map[p.name := pv]));
  }

  /** A one-parameter overload lists that parameter alone. */
  lemma {:induction false} EventLineOne(id: string, pv: ParamValue)
    ensures EventLine(id, [pv]) == Overload(id, ParamString(pv))
  {
    assert ParamStrings([pv]) == [ParamString(pv)];
  }

  /** The line of a one-parameter event with no override. */
  lemma {:induction false} OneParamLine(x: string, desc: seq<string>, p: AstParam, table: map<string, Override>)
    requires |x| >= 1 && AllWordChars(x) && "event" + x !in table
    requires LDocType(p.typeTag).Some?
    ensures EventFromAst(AstEvent("event" + x, desc, [p])).Success?
    ensures ConvertAst(AstEvent("event" + x, desc, [p]), table) == Success(Overload(x, p.name + ":" + LDocType(p.typeTag).value))
  {
    MatchEventNameSpec("event" + x, x);
    var ast := AstEvent("event" + x, desc, [p]);
    var pv := ParamFromAst(p).value;
    OneParamEvent("event" + x, desc, p);
    var e := EventFromAst(ast).value;
    EventFromAstValid(ast);
    assert Patched(e, table) == Success(e);
    assert e.params.Values() == [pv];
    EventLineOne(x, pv);
  }

  /** An event without an override whose one parameter has a known tag is rendered with that
      tag's LuaDoc type, for every tag of the table. */
  lemma {:induction false} ConvertOneParam(x: string, desc: seq<string>, p: AstParam, table: map<string, Override>)
    requires |x| >= 1 && AllWordChars(x) && "event" + x !in table
    requires p.typeTag in SourceTags
    ensures ConvertSpec([AstEvent("event" + x, desc, [p])], table)
         == Success([Preamble(), Overload(x, p.name + ":" + LDocType(p.typeTag).value)])
  {
    LDocTypeTable();
    OneParamLine(x, desc, p, table);
    SingleEvent(AstEvent("event" + x, desc, [p]), table);
  }

  /** The line of an event whose name matches and whose override applies. */
  lemma {:induction false} ConvertEventLine(e: EventValue, table: map<string, Override>, id: string)
    requires e.Valid() && MatchEventName(e.name) == Some(id) && Patched(e, table).Success?
    ensures Patched(e, table).value.Valid()
    ensures ConvertEvent(e, table) == Success(EventLine(id, Patched(e, table).value.params.Values()))
  {
    PatchedValid(e, table);
  }

  /** The `replaceParam` override that gives the parameter `k` of event `name` the display
      name `y`. */
  function RenameTable(name: string, k: string, y: string): map<string, Override>
  {
    map[name := Override("modify", name, ReplaceParam([Replacement(k, "", y)]))]
  }

  /** The rename override on a one-parameter event: the parameter, still filed under `k`, gets
      the override name `y`. */
  lemma {:induction false} RenamePatch(name: string, desc: seq<string>, k: string, pv: ParamValue, y: string)
    requires y != ""
    ensures Patched(EventValue(name, desc, OrderedMap([k], map[k := pv])), RenameTable(name, k, y))
         == Success(EventValue(name, desc, OrderedMap([k], map[k := pv.(overrideName := Some(y))])))
  {
    var e := EventValue(name, desc, OrderedMap([k], map[k := pv]));
    var rs := [Replacement(k, "", y)];
    assert rs[..0] == [] && rs[0] == Replacement(k, "", y);
    assert ReplaceAll(e, rs[..0]) == Success(e);
    assert ReplaceAll(e, rs) == ReplaceOne(e, rs[0]);
    var pv' := pv.(overrideName := Some(y));
    assert e.params.entries[k := pv'] == map[k := pv'];
    assert ReplaceOne(e, rs[0]) == Success(e.SetParam(k, pv'));
  }

  /** The line of a one-parameter event under the rename override. */
  lemma {:induction false} RenameLine(x: string, desc: seq<string>, p: AstParam, y: string)
    requires |x| >= 1 && AllWordChars(x) && LDocType(p.typeTag).Some? && y != ""
    ensures var ast := AstEvent("event" + x, desc, [p]);
      var table := RenameTable("event" + x, p.name, y);
      && EventFromAst(ast).Success?
      && ConvertAst(ast, table) == Success(Overload(x, y + ":" + LDocType(p.typeTag).value))
      && Patched(EventFromAst(ast).value, table).Success?
      && Patched(EventFromAst(ast).value, table).value.params.keys == [p.name]
  {
    var ast := AstEvent("event" + x, desc, [p]);
    var table := RenameTable("event" + x, p.name, y);
    MatchEventNameSpec("event" + x, x);
    OneParamEvent("event" + x, desc, p);
    var pv := ParamFromAst(p).value;
    var e := EventFromAst(ast).value;
    EventFromAstValid(ast);
    RenamePatch("event" + x, desc, p.name, pv, y);
    var pv' := pv.(overrideName := Some(y));
    var e' := Patched(e, table).value;
    assert e'.params.Values() == [pv'];
    EventLineOne(x, pv');
    assert pv'.DisplayName() == y;
    ConvertEventLine(e, table, x);
  }

  /** End-to-end: `event<X>` with one parameter of a known tag, and an override that gives that
      parameter the display name `y`, renders `y:<type>`, while the parameter stays filed under
      its own name. */
  lemma {:induction false} RenameScenario(x: string, desc: seq<string>, p: AstParam, y: string)
    requires |x| >= 1 && AllWordChars(x) && LDocType(p.typeTag).Some? && y != ""
    ensures var ast := AstEvent("event" + x, desc, [p]);
      var table := RenameTable("event" + x, p.name, y);
      && ConvertSpec([ast], table) == Success([Preamble(), Overload(x, y + ":" + LDocType(p.typeTag).value)])
      && Patched(EventFromAst(ast).value, table).Success?
      && Patched(EventFromAst(ast).value, table).value.params.keys == [p.name]
  {
    RenameLine(x, desc, p, y);
    SingleEvent(AstEvent("event" + x, desc, [p]), RenameTable("event" + x, p.name, y));
  }

  // ---------------------------------------------------------------------------------------
  // The imperative conversion

  /** `e.params.values()` rendered as `displayName:type`, in map order. */
  method RenderParams(e: Event) returns (ps: seq<string>)
    requires e.Valid()
    ensures ps == ParamStrings(e.Value().params.Values())
  {
    ghost var vs := e.Value().params.Values();
    ps := [];
    var k := 0;
    while k < |e.params.keys|
      invariant 0 <= k <= |e.params.keys| == |vs|
      invariant |ps| == k && forall m :: 0 <= m < k ==> ps[m] == ParamString(vs[m])
    {
      var p := e.params.entries[e.params.keys[k]];
      ps := ps + [p.Value().DisplayName() + ":" + p.typeName];
      k := k + 1;
    }
  }

  /** One iteration of the loop of `convert`, on the event object: the override is applied to
      its own parameter objects. */
  method ConvertOne(e: Event, table: map<string, Override>) returns (r: Result<string, Error>)
    requires e.Valid() && Injective(e.params)
    modifies e.params.entries.Values
    ensures r == ConvertEvent(old(e.Value()), table)
  {
    var m := MatchEventName(e.name);
    if m.None? {
      return Failure(UnexpectedEventName(e.name));
    }
    if e.name in table {
      var err := ApplyPatch(e, table[e.name].patch);
      if err.Some? {
        return Failure(err.value);
      }
    }
    var ps := RenderParams(e);
    return Success(Overload(m.value, Join(ps, ", ")));
  }

  /** The events from `i` on still hold the states they were built with. */
  ghost predicate Pending(evs: seq<Event>, es: seq<EventValue>, i: nat)
    reads set e | e in evs
    reads ParamObjects(evs)
  {
    && |evs| == |es|
    && forall j :: i <= j < |evs| ==>
         && evs[j].params.entries.Values <= ParamObjects(evs)
         && evs[j].Valid() && evs[j].Value() == es[j] && Injective(evs[j].params)
  }

  /** `ConvertOne` on the `i`-th of separate events: the events after it keep their states. */
  method ConvertNext(evs: seq<Event>, ghost es: seq<EventValue>, i: nat, table: map<string, Override>)
    returns (line: Result<string, Error>)
    requires i < |evs| && Pending(evs, es, i) && Separate(evs)
    modifies evs[i].params.entries.Values
    ensures Pending(evs, es, i + 1)
    ensures line == ConvertEvent(es[i], table)
  {
    ghost var objs := ParamObjects(evs) - evs[i].params.entries.Values;
    label before:
    line := ConvertOne(evs[i], table);
    assert unchanged@before(objs);
    forall j | i + 1 <= j < |evs|
      ensures evs[j].params.entries.Values <= objs
    {
      assert evs[i].params.entries.Values !! evs[j].params.entries.Values;
    }
  }

  /** `rs` holds the outcome of converting each of `es` on its own. */
  ghost predicate ResultsOf(rs: seq<Result<string, Error>>, es: seq<EventValue>, table: map<string, Override>)
  {
    |rs| == |es| && forall j :: 0 <= j < |es| ==> es[j].Valid() && rs[j] == ConvertEvent(es[j], table)
  }

  /** One iteration of the loop of `convert`: a failing event ends the conversion with its
      error, a successful one appends its line. */
  lemma {:induction false} ResultsNext(rs: seq<Result<string, Error>>, es: seq<EventValue>, table: map<string, Override>,
                                       i: nat, done: seq<string>, line: Result<string, Error>)
    requires ResultsOf(rs, es, table) && i < |rs| && Collect(rs[..i]) == Success(done)
    requires line == ConvertEvent(es[i], table)
    ensures line.Failure? ==> Collect(rs) == Failure(line.error)
    ensures line.Success? ==> Collect(rs[..i + 1]) == Success(done + [line.value])
  {
    CollectNext(rs, i, done);
  }

  /** `ConvertNext`, with the outcome so far: the first failure, or the lines collected. */
  method ConvertStep(evs: seq<Event>, ghost es: seq<EventValue>, ghost rs: seq<Result<string, Error>>,
                     i: nat, table: map<string, Override>, ghost done: seq<string>)
    returns (line: Result<string, Error>)
    requires i < |evs| && Pending(evs, es, i) && Separate(evs)
    requires ResultsOf(rs, es, table) && Collect(rs[..i]) == Success(done)
    modifies evs[i].params.entries.Values
    ensures Pending(evs, es, i + 1) && Separate(evs)
    ensures line.Failure? ==> Collect(rs) == Failure(line.error)
    ensures line.Success? ==> Collect(rs[..i + 1]) == Success(done + [line.value])
  {
    line := ConvertNext(evs, es, i, table);
    ResultsNext(rs, es, table, i, done, line);
  }

  /** The loop of `convert` over events built from the AST: the preamble, then each event's
      line after its override has been applied in place; or the first error. */
  method ConvertAll(evs: seq<Event>, ghost es: seq<EventValue>, ghost rs: seq<Result<string, Error>>,
                    table: map<string, Override>)
    returns (r: Result<seq<string>, Error>)
    requires Pending(evs, es, 0) && Separate(evs) && ResultsOf(rs, es, table)
    modifies ParamObjects(evs)
    ensures Collect(rs).Failure? ==> r == Failure(Collect(rs).error)
    ensures Collect(rs).Success? ==> r == Success([Preamble()] + Collect(rs).value)
  {
    var lines := [Preamble()];
    ghost var body: seq<string> := [];
    assert rs[..0] == [];
    var i := 0;
    while i < |evs|
      invariant 0 <= i <= |evs|
      invariant Pending(evs, es, i) && Separate(evs)
      invariant lines == [Preamble()] + body && Collect(rs[..i]) == Success(body)
    {
      var line := ConvertStep(evs, es, rs, i, table, body);
      if line.Failure? {
        return Failure(line.error);
      }
      lines := lines + [line.value];
      body := body + [line.value];
      i := i + 1;
    }
    assert rs[..i] == rs;
    return Success(lines);
  }

  /** `convert`: the events built by `fromAstArray`, then the loop over them. */
  method Convert(asts: seq<AstEvent>, table: map<string, Override>) returns (r: Result<seq<string>, Error>)
    ensures r == ConvertSpec(asts, table)
  {
    var built := Event.FromAstArray(asts);
    if built.Failure? {
      return Failure(built.error);
    }
    var evs := built.value;
    ghost var es := EventsFromAst(asts).value;
    EventsFromAstValid(asts);
    forall j | 0 <= j < |evs| ensures evs[j].params.entries.Values <= ParamObjects(evs) {
      assert evs[j] in evs;
    }
    r := ConvertAll(evs, es, EventResults(es, table), table);
  }
}
