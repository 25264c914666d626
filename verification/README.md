# Transformice/mousebase generators, modelled in Dafny

This project models the code generators of the repository: the small build tools that turn external data into Lua source files.

- **Event-field annotations** (`eventFields.converter.ts`, `eventFields.overrides.ts`). The parsed Lua-help event list becomes LuaDoc `--- @field on fun(...)` lines. Each event is first built as an `LDocEvent` object whose parameters live in an insertion-ordered `Map` of `LDocEventParam` objects. A per-event override then patches those objects in place. The override table holds two retyping overrides. The helper `replaceParam`, which sets a parameter's description or display name, is defined beside them but no override of the table uses it; the model covers it all the same. Finally one overload line is rendered per event, behind a fixed preamble line.
- **Translation tables** (`tools/build-translations.ts`). POEditor exports become `translations-gen.lua`. Every definition is escaped by `encodeToLuaString`, which calls `JSON.stringify`, strips the quotes and collapses doubled backslashes. A `termkeys-gen.lua` alias file is also produced.
- **Legacy translation tables** (`build-translations.js`). `key = [[value]]` asset files are scanned with the regular expression `REGX_TL`, and a Lua table is rendered per file.
- **Translation regeneration** (`tools/regen-translations.py`). Every non-base language file is rewritten after the layout of the English base file. Comment and blank lines are copied. Each key line becomes the language's own value, or the base value plus a `# Needs translation` marker when the language lacks the key. The continuation lines of a multi-line base value are dropped, so the rewrite is line for line only when every value closes on its own line (`RegenTranslations.RewriteLineForLine`).

Modules, one per source file plus shared ones:

| file | module | source |
|---|---|---|
| `common.dfy` | `Common`, `OrderedMaps` | the `Option`/`Result` wrappers, `Join`/`Split`, `Dedup`, the first-failure collection `Collect`, and the insertion-ordered map shared by JS `Map`/objects and Python `dict` (assigning an existing key keeps its position) |
| `ldoc.dfy` | `LDoc` | the `LDocEventParam` and `LDocEvent` classes as Dafny classes `Param` and `Event`, with value snapshots `ParamValue` and `EventValue` |
| `overrides.dfy` | `EventOverrides` | the override table. Its closures become a `Patch` datatype, applied in place by methods and specified by pure functions |
| `eventfields.dfy` | `EventFieldsConverter` | `convert` |
| `luatranslations.dfy` | `LuaTranslations` | `tools/build-translations.ts` |
| `legacytranslations.dfy` | `LegacyTranslations` | `build-translations.js`, including an exact matcher for `REGX_TL` (multiline `^`, `\S+` with backtracking, lazy `[\S\s]*?`, global `lastIndex`) |
| `regentranslations.dfy` | `RegenTranslations` | `tools/regen-translations.py`, including an exact matcher for `re.search(r"(\S+)\s*=", line)` |

Where the code works by changing state step by step, the model is imperative:

- the classes and their setters;
- the in-place override patches;
- the loops of `fromAstArray` and `convert`;
- the table-reading and rendering loops of the three translation tools;
- the per-line rewrite loop.

Each method is proved equal to a specification function, and the lemmas state what those functions promise.

Points where the intended behaviour and the code differ (the model follows the code):

- `build-translations.js:18` uses `String.replace` with string patterns. So only the FIRST line feed and the FIRST quote of a value are escaped (`LegacyTranslations.EscapeValueFirstOnly`, `LegacyTranslations.LegacyEntryKeepsSecondLineFeed`). The intended behaviour is that every occurrence is escaped, and the newer `tools/build-translations.ts` does escape every one.
- `encodeToLuaString` is not injective:
  - after `JSON.stringify`, every doubled backslash collapses to one;
  - so a literal backslash followed by `n` and a real line feed both become `\n` (`LuaTranslations.EncodeNotInjective`);
  - the round trip "escape then parse as a Lua string" therefore fails for definitions that contain a backslash;
  - for backslash-free definitions the encoding is exactly the JSON escape (`LuaTranslations.EncodeWithoutBackslash`).
- A language with no entries still renders a block: `translations["xx"] = {` followed by an empty line and `}` (`LuaTranslations.EmptyBlock`, `LegacyTranslations.LegacyEmptyBlock`).

## Model

| member | source | states |
|---|---|---|
| `LDoc.LDocTypeTable` | src/util/staging/mousebase/generate/eventFields.converter.ts:6-14 | exactly the seven own keys of the table (the Lua-help tags) have a LuaDoc type, each is mapped to the listed name, and distinct tags map to distinct names |
| `LDoc.ParamFromAst` | src/util/staging/mousebase/generate/eventFields.converter.ts:29-39 | fails with "no known type" exactly when the tag has no LuaDoc type; otherwise the parameter keeps name, description and extra descriptions, takes the mapped type and has no override name |
| `LDoc.ParamValue.DisplayName` | src/util/staging/mousebase/generate/eventFields.converter.ts:41-43 | a non-empty override name is shown; an absent or empty one (falsy in JS) falls back to the original name |
| `LDoc.Param.constructor` | src/util/staging/mousebase/generate/eventFields.converter.ts:22-27 | the new object holds the given name, type and descriptions and no override name |
| `LDoc.Param.FromAst` | src/util/staging/mousebase/generate/eventFields.converter.ts:29-39 | allocates a fresh parameter object whose state is `ParamFromAst`, or reports that function's unknown-type error |
| `LDoc.Param.SetDescription` | src/util/staging/mousebase/generate/eventFields.converter.ts:45-47 | replaces only the description |
| `LDoc.Param.AddDescription` | src/util/staging/mousebase/generate/eventFields.converter.ts:49-51 | appends to the additional descriptions; no other field of the parameter changes |
| `LDoc.Param.SetOverrideName` | src/util/staging/mousebase/generate/eventFields.converter.ts:53-55 | sets only the override name; the original name, and with it the map key, is untouched |
| `LDoc.Param.SetType` | src/util/staging/mousebase/generate/eventFields.converter.ts:57-59 | replaces only the type |
| `LDoc.Event.constructor` | src/util/staging/mousebase/generate/eventFields.converter.ts:65-67 | a new event with the given name and description and an empty, valid parameter map |
| `LDoc.Event.AddParam` | src/util/staging/mousebase/generate/eventFields.converter.ts:81-84 | `Map.set` semantics: the parameter is stored under its name, a new name goes to the end, a repeated name keeps its position and the later object wins; the event stays valid |
| `LDoc.AddParamSpec` | src/util/staging/mousebase/generate/eventFields.converter.ts:81-84 | on values: entries updated at the name, key order unchanged for a known name and extended by one for a new name, name and description kept |
| `LDoc.Event.SetDescription` | src/util/staging/mousebase/generate/eventFields.converter.ts:86-89 | a single string becomes a one-line description; name and parameters unchanged |
| `LDoc.Event.SetDescriptionLines` | src/util/staging/mousebase/generate/eventFields.converter.ts:86-89 | an array replaces the description as given; name and parameters unchanged |
| `LDoc.Event.PushDescription` | src/util/staging/mousebase/generate/eventFields.converter.ts:91-95 | appends an empty separator line and then the new line |
| `LDoc.Event.FromAst` | src/util/staging/mousebase/generate/eventFields.converter.ts:72-75 | builds a fresh valid event with fresh parameter objects equal to `EventFromAst`, or stops with the first unknown-type error |
| `LDoc.Event.FromAstArray` | src/util/staging/mousebase/generate/eventFields.converter.ts:69-79 | one fresh event per AST event, in order, equal to `EventsFromAst`; no two events share an object; the first unknown type aborts |
| `LDoc.AddParamsFails` | src/util/staging/mousebase/generate/eventFields.converter.ts:73-75 | adding a parameter list succeeds if and only if every tag is known; a failure names an unknown tag |
| `LDoc.AddParamsSucceeds` | src/util/staging/mousebase/generate/eventFields.converter.ts:73-75 | a successful build keeps the event valid and its name and description unchanged |
| `LDoc.AddParamsKeeps` | src/util/staging/mousebase/generate/eventFields.converter.ts:81-84 | a parameter whose name is not re-added keeps its entry |
| `LDoc.AddParamsDistinct` | src/util/staging/mousebase/generate/eventFields.converter.ts:73-75 | with distinct fresh names, the key order is the AST parameter order |
| `LDoc.AddParamsDistinctEntries` | src/util/staging/mousebase/generate/eventFields.converter.ts:73-75 | with distinct fresh names, each name maps to the converted AST parameter |
| `LDoc.FreshNamesIff` | src/util/staging/mousebase/generate/eventFields.converter.ts:73-75 | the recursive freshness predicate equals "pairwise distinct names, none already taken" |
| `LDoc.EventFromAstValid` | src/util/staging/mousebase/generate/eventFields.converter.ts:72-75 | a built event is valid and keeps the AST name and description |
| `LDoc.EventsFromAstSpec` | src/util/staging/mousebase/generate/eventFields.converter.ts:69-79 | the array conversion succeeds if and only if every event converts, and then it yields them index by index; a failure is some event's error |
| `LDoc.EventsFromAstFirstFailure` | src/util/staging/mousebase/generate/eventFields.converter.ts:71-74 | the error reported is that of the first failing event |
| `LDoc.ParamValuesPut` | src/util/staging/mousebase/generate/eventFields.converter.ts:82 | snapshotting the object map after `set` equals setting the snapshot in the value map |
| `LDoc.BuiltSpec` | src/util/staging/mousebase/generate/eventFields.converter.ts:69-79 | a loop state holding all events is the full `EventsFromAst` result with valid, separate events |
| `EventOverrides.Modifiers` | src/util/staging/mousebase/generate/eventFields.overrides.ts:20-33 | the modifier list has exactly the two entries of the source |
| `EventOverrides.BuildOverrides` | src/util/staging/mousebase/generate/eventFields.overrides.ts:40-45 | the loop builds the record `OverridesFrom(mods)` |
| `EventOverrides.OverridesFromKeys` | src/util/staging/mousebase/generate/eventFields.overrides.ts:40-45 | the record has one key per modifier name, each entry of type "modify" carrying its own name |
| `EventOverrides.OverridesFromLastWins` | src/util/staging/mousebase/generate/eventFields.overrides.ts:40-45 | for a repeated name, the last modifier with that name is stored |
| `EventOverrides.OverridesTable` | src/util/staging/mousebase/generate/eventFields.overrides.ts:37-45 | the exported table maps `eventSummoningEnd` and `eventContactListener` to their retyping patches and nothing else |
| `EventOverrides.SetTypeValueSpec` | src/util/staging/mousebase/generate/eventFields.overrides.ts:24 | retyping fails (the `get` of a missing parameter) exactly when the parameter is absent; otherwise only that parameter's type changes |
| `EventOverrides.SetTypeIdempotent` | src/util/staging/mousebase/generate/eventFields.overrides.ts:24 | retyping twice equals retyping once |
| `EventOverrides.ReplaceAllFails` | src/util/staging/mousebase/generate/eventFields.overrides.ts:12-16 | `replaceParam` fails if and only if some entry with a truthy description or override name targets a missing parameter |
| `EventOverrides.ReplaceAllPrefixFailure` | src/util/staging/mousebase/generate/eventFields.overrides.ts:12-16 | once an entry fails, the later entries have no effect on the outcome |
| `EventOverrides.ReplaceAllShape` | src/util/staging/mousebase/generate/eventFields.overrides.ts:12-16 | replacements keep the event name and description, the key order and key set, and each parameter's name, type and extra descriptions |
| `EventOverrides.LastDescSpec` | src/util/staging/mousebase/generate/eventFields.overrides.ts:14 | the last non-empty description given for a name is the one that sticks; none if all are empty |
| `EventOverrides.LastOverrideSpec` | src/util/staging/mousebase/generate/eventFields.overrides.ts:15 | the last non-empty override name given for a name is the one that sticks; none if all are empty |
| `EventOverrides.ReplaceAllEntry` | src/util/staging/mousebase/generate/eventFields.overrides.ts:12-16 | each parameter ends with the last non-empty description and override name targeted at it, else its old ones |
| `EventOverrides.ReplaceAllIdempotent` | src/util/staging/mousebase/generate/eventFields.overrides.ts:8-17 | applying the same replacement list twice equals applying it once |
| `EventOverrides.PatchShape` | src/util/staging/mousebase/generate/eventFields.overrides.ts:23-31 | a successful patch keeps the event valid, with the same name, description and parameter keys |
| `EventOverrides.PatchIdempotent` | src/util/staging/mousebase/generate/eventFields.overrides.ts:23-31 | every patch is idempotent |
| `EventOverrides.ApplyPatch` | src/util/staging/mousebase/generate/eventFields.overrides.ts:23-31 | the in-place `modify` leaves the event equal to `PatchValue` of its old state, or reports that function's error |
| `EventOverrides.SetParamTypeInPlace` | src/util/staging/mousebase/generate/eventFields.overrides.ts:24 | retypes the parameter object in place, as `SetTypeValue` of the old state; a missing parameter is the error |
| `EventOverrides.ReplaceParams` | src/util/staging/mousebase/generate/eventFields.overrides.ts:8-17 | the loop over replacements leaves the event equal to `ReplaceAll` of its old state, or stops with that function's error |
| `EventOverrides.ReplaceOneInPlace` | src/util/staging/mousebase/generate/eventFields.overrides.ts:13-15 | one replacement in place: the `get`, then the truthy-guarded setters |
| `EventOverrides.DescribeParam` | src/util/staging/mousebase/generate/eventFields.overrides.ts:14 | setting a description through the map changes exactly that entry of the event's value |
| `EventOverrides.RenameParam` | src/util/staging/mousebase/generate/eventFields.overrides.ts:15 | setting an override name through the map changes exactly that entry of the event's value |
| `EventFieldsConverter.MatchEventNameSpec` | src/util/staging/mousebase/generate/eventFields.converter.ts:111 | `^event(\w+)$`: a match is `"event"` followed by a non-empty run of word characters, every such name matches, and the capture is the rest |
| `EventFieldsConverter.MatchEventNameRejects` | src/util/staging/mousebase/generate/eventFields.converter.ts:111-112 | for every name: no match if and only if the name is not `event` followed by one or more word characters; in particular a name without the prefix, or with any non-word character after it, is rejected |
| `EventFieldsConverter.ParamStrings` | src/util/staging/mousebase/generate/eventFields.converter.ts:120-124 | one `displayName:type` string per parameter, in map order |
| `EventFieldsConverter.PatchedValid` | src/util/staging/mousebase/generate/eventFields.converter.ts:115-118 | applying the override (if any) keeps the event valid and its parameter order |
| `EventFieldsConverter.EventResults` | src/util/staging/mousebase/generate/eventFields.converter.ts:110-131 | one conversion result per event, in order |
| `EventFieldsConverter.EventsFromAstValid` | src/util/staging/mousebase/generate/eventFields.converter.ts:110 | all events from `fromAstArray` are valid |
| `EventFieldsConverter.ConvertShape` | src/util/staging/mousebase/generate/eventFields.converter.ts:102-134 | a successful conversion is the preamble followed by one line per event, in event order, each naming the captured event name and the patched parameters |
| `EventFieldsConverter.ConvertUnknownType` | src/util/staging/mousebase/generate/eventFields.converter.ts:110 | an unknown parameter type aborts the whole conversion with that error |
| `EventFieldsConverter.ConvertBadName` | src/util/staging/mousebase/generate/eventFields.converter.ts:111-112 | an event name that does not match aborts the conversion, with "Unexpected event name" if no earlier event failed |
| `EventFieldsConverter.SingleEvent` | src/util/staging/mousebase/generate/eventFields.converter.ts:102-134 | one event gives the preamble and its line, or its error |
| `EventFieldsConverter.OneParamEvent` | src/util/staging/mousebase/generate/eventFields.converter.ts:69-84 | a one-parameter AST event becomes an event with that single parameter |
| `EventFieldsConverter.EventLineOne` | src/util/staging/mousebase/generate/eventFields.converter.ts:126-130 | a one-parameter line carries just that parameter's string |
| `EventFieldsConverter.OneParamLine` | src/util/staging/mousebase/generate/eventFields.converter.ts:110-130 | without an override, the line of `eventX(p)` lists `name:ldocType` of p |
| `EventFieldsConverter.ConvertOneParam` | src/util/staging/mousebase/generate/eventFields.converter.ts:102-134 | end to end: for every known tag, a single unpatched event converts to the preamble and its typed overload line |
| `EventFieldsConverter.ConvertEventLine` | src/util/staging/mousebase/generate/eventFields.converter.ts:115-130 | a matched, successfully patched event renders the line of its patched parameters |
| `EventFieldsConverter.RenamePatch` | src/util/staging/mousebase/generate/eventFields.overrides.ts:8-17 | a rename override sets exactly that parameter's override name |
| `EventFieldsConverter.RenameLine` | src/util/staging/mousebase/generate/eventFields.converter.ts:115-130 | after a rename override the line shows the new display name with the original type, and the map key is still the original name |
| `EventFieldsConverter.RenameScenario` | src/util/staging/mousebase/generate/eventFields.converter.ts:102-134 | end to end with a rename override: preamble, then the line with the renamed parameter |
| `EventFieldsConverter.RenderParams` | src/util/staging/mousebase/generate/eventFields.converter.ts:120-124 | the loop over `params.values()` yields the parameter strings of the event's values |
| `EventFieldsConverter.ConvertOne` | src/util/staging/mousebase/generate/eventFields.converter.ts:111-130 | name check, in-place override and rendering of one event equal `ConvertEvent` of its state before the override |
| `EventFieldsConverter.ConvertNext` | src/util/staging/mousebase/generate/eventFields.converter.ts:110-131 | converting the i-th event yields `ConvertEvent` of its unpatched value and leaves the later events unpatched |
| `EventFieldsConverter.ResultsNext` | src/util/staging/mousebase/generate/eventFields.converter.ts:110-131 | a failing event ends the collection with its error; a success extends the collected lines |
| `EventFieldsConverter.ConvertStep` | src/util/staging/mousebase/generate/eventFields.converter.ts:110-131 | one loop iteration: the next event's line is collected or its error ends the conversion |
| `EventFieldsConverter.ConvertAll` | src/util/staging/mousebase/generate/eventFields.converter.ts:103-133 | the loop returns the preamble followed by every event's line, or the first event's error |
| `EventFieldsConverter.Convert` | src/util/staging/mousebase/generate/eventFields.converter.ts:102-134 | the whole `convert` equals `ConvertSpec` |
| `OrderedMaps.PutSpec` | src/util/staging/mousebase/generate/eventFields.converter.ts:82 | assignment keeps validity, updates the entry, keeps the position of a known key, appends a new key, and keeps the earlier key order |
| `OrderedMaps.FromPairsSpec` | tools/regen-translations.py:16-19 | building a dict from pairs: a key is present if and only if some pair has it, its value comes from the last such pair, and keys are in first-occurrence order |
| `OrderedMaps.FromPairsLast` | tools/regen-translations.py:19 | a stored value is the one of the last pair with that key |
| `OrderedMaps.LastValueSome` | tools/regen-translations.py:19 | a key has a last value if and only if some pair carries it |
| `Common.CollectFirstFailure` | src/util/staging/mousebase/generate/eventFields.converter.ts:110-131 | the first thrown error is the one reported |
| `Common.CollectSpec` | src/util/staging/mousebase/generate/eventFields.converter.ts:110-131 | collection succeeds if and only if every item succeeds, and then it lists the values in order |
| `Common.SplitJoin` | tools/build-translations.ts:79 | splitting a line-joined output at the separator gives back the lines |
| `LuaTranslations.CollapseJsonEscape` | tools/build-translations.ts:9-16 | collapsing the doubled backslashes of the JSON escape gives the per-character Lua escape |
| `LuaTranslations.EncodeToLuaStringSpec` | tools/build-translations.ts:9-16 | `encodeToLuaString` is the per-character escape: `"` to `\"`, control characters to their JSON escapes, a backslash left single |
| `LuaTranslations.EncodeWithoutBackslash` | tools/build-translations.ts:11-13 | without backslashes the encoding is exactly the body of `JSON.stringify` |
| `LuaTranslations.EncodeAppend` | tools/build-translations.ts:9-16 | the encoding is a homomorphism over concatenation, so every occurrence is escaped, not only the first |
| `LuaTranslations.EncodeNoControl` | tools/build-translations.ts:9-16 | the encoded text has no control characters, so no raw line feed ends up inside a Lua string |
| `LuaTranslations.EncodeQuoteAndLineFeed` | tools/build-translations.ts:9-16 | a quote becomes `\"` and a line feed becomes `\n` |
| `LuaTranslations.LuaEscapePlain` | tools/build-translations.ts:9-16 | printable text with no quote or backslash is left unchanged |
| `LuaTranslations.EncodeScenario` | tools/build-translations.ts:9-16 | a definition with a line feed and two quotes has all three escaped |
| `LuaTranslations.EncodeNotInjective` | tools/build-translations.ts:15 | a backslash followed by `n`, and a line feed, encode alike |
| `LuaTranslations.LastDefinitionSome` | tools/build-translations.ts:31-34 | a term has a last definition if and only if some record of it has a non-null definition |
| `LuaTranslations.LanguageTableSpec` | tools/build-translations.ts:29-34 | a term is in a language's table if and only if it has a non-null definition, stored encoded from its last non-null record |
| `LuaTranslations.LanguageTableKeys` | tools/build-translations.ts:29-34 | table keys are the defined terms in first-definition order |
| `LuaTranslations.LuaLanguagesKeys` | tools/build-translations.ts:23-37 | languages are keyed by code in first-occurrence order |
| `LuaTranslations.LuaLanguagesSpec` | tools/build-translations.ts:23-37 | a code is present if and only if some export has it, and its table is built from the last export with that code |
| `LuaTranslations.ReadLuaLanguages` | tools/build-translations.ts:18-38 | the reading loop builds `LuaLanguages(exports)` |
| `LuaTranslations.LuaLanguagesValid` | tools/build-translations.ts:18-38 | every language table read is a valid ordered map |
| `LuaTranslations.RenderEntries` | tools/build-translations.ts:49-51 | the loop renders one `["term"] = "value"` chunk per key, in key order |
| `LuaTranslations.EntryChunksSpec` | tools/build-translations.ts:49-51 | the i-th chunk is the i-th key with its value |
| `LuaTranslations.RenderBody` | tools/build-translations.ts:53-58 | an empty list gives an empty body; otherwise the indented chunks are joined by `,\n` plus indent |
| `LuaTranslations.BodyLines` | tools/build-translations.ts:53-58 | a body of line-free chunks has one line per chunk: indent, chunk, and a comma on all but the last |
| `LuaTranslations.EmptyBlock` | tools/build-translations.ts:60 | a language with no entries still renders a block with an empty line |
| `LuaTranslations.RenderLuaModule` | tools/build-translations.ts:42-65 | the output is header, blocks joined by a blank line, footer; `langsCnt` is the number of languages |
| `LuaTranslations.LanguageBlocksSpec` | tools/build-translations.ts:46-63 | the i-th block is the i-th language code with its table's chunks |
| `LuaTranslations.TranslationsBlocks` | tools/build-translations.ts:18-65 | end to end: block i names the i-th distinct code and renders the table of the last export with that code |
| `LuaTranslations.TableEntry` | tools/build-translations.ts:31-51 | entry j of a rendered language is the j-th distinct defined term with its last definition, encoded |
| `LuaTranslations.TranslationsScenario` | tools/build-translations.ts:18-65 | a definition with a line feed and two quotes renders as one entry with all three escaped |
| `LuaTranslations.RenderTermKeys` | tools/build-translations.ts:73-79 | the loop renders the alias file `TermKeys(terms)` |
| `LuaTranslations.TermKeysLines` | tools/build-translations.ts:73-79 | the alias file is the header line and then one line per term, in order, with no trailing newline |
| `LuaTranslations.TermOfLine` | tools/build-translations.ts:76 | the term can be read back from its alias line |
| `LuaTranslations.TermKeysScenario` | tools/build-translations.ts:73-79 | two terms give the header and two alias lines |
| `Common.SkipSpaceSpec` | build-translations.js:6 | `\s*` consumes a maximal run of white space of the given set (JS `\s` here, Python's `str.isspace` set in the regeneration tool) |
| `Common.SkipNonSpaceSpec` | build-translations.js:6 | `\S+` can extend up to a maximal run of non-space |
| `LegacyTranslations.FindCloseSpec` | build-translations.js:6 | the lazy `[\S\s]*?\]\]` stops at the first `]]` |
| `LegacyTranslations.MatchAtSound` | build-translations.js:6 | every match found at a position satisfies the regular expression's definition |
| `LegacyTranslations.MatchAtKey` | build-translations.js:6 | a match starts at a line start and its key starts after the leading white space |
| `LegacyTranslations.MatchAtGreedy` | build-translations.js:6 | the greedy `\S+` backtracks to the longest key that still lets the rest match |
| `LegacyTranslations.LongestKeyCovers` | build-translations.js:6 | the backtracking search finds a key at least as long as any key that works |
| `LegacyTranslations.ExecSound` | build-translations.js:17 | `exec` returns only real matches |
| `LegacyTranslations.ExecLeftmost` | build-translations.js:17 | `exec` returns the leftmost match at or after `lastIndex` |
| `LegacyTranslations.MatchesSpec` | build-translations.js:16-19 | the `while (exec)` loop visits leftmost matches, each after the end of the previous one |
| `LegacyTranslations.GreedyKeyScenario` | build-translations.js:6 | in `a=b = [[x]]` the key is `a=b`, not `a` |
| `LegacyTranslations.TrimSpec` | build-translations.js:18 | `trim` removes the maximal white-space prefix and suffix and keeps the middle |
| `LegacyTranslations.TrimIdempotent` | build-translations.js:18 | trimming twice equals trimming once |
| `LegacyTranslations.TrimAround` | build-translations.js:18 | text padded with white space trims back to the text |
| `LegacyTranslations.ReplaceFirstAt` | build-translations.js:18 | a string-pattern `replace` substitutes at the first occurrence only |
| `LegacyTranslations.ReplaceFirstCount` | build-translations.js:18 | that replace removes exactly one occurrence and adds the replacement's characters |
| `LegacyTranslations.EscapeValueFirstOnly` | build-translations.js:18 | escaping removes exactly one raw line feed if the trimmed value had any, keeps every quote character, and adds one backslash for the first line feed and one for the first quote |
| `LegacyTranslations.EscapeValuePlain` | build-translations.js:18 | a value with no line feed or quote is only trimmed |
| `LegacyTranslations.EscapeValueScenario` | build-translations.js:18 | a three-line value has only its first line feed escaped |
| `LegacyTranslations.ScanLanguage` | build-translations.js:14-19 | the exec loop builds `LangData(content)` |
| `LegacyTranslations.LangDataKeys` | build-translations.js:16-19 | keys are the matched keys in first-match order |
| `LegacyTranslations.LangDataHas` | build-translations.js:16-19 | a key is present if and only if some match has it |
| `LegacyTranslations.LangDataValue` | build-translations.js:16-19 | its value is the escaped value of the last match with that key |
| `LegacyTranslations.FileStem` | build-translations.js:13 | `path.parse(...).name` is a prefix of the file name ending just before its last dot, or the whole name |
| `LegacyTranslations.FileStemOfExtension` | build-translations.js:13 | a stem not starting with a dot, followed by `.` and a dot-free extension, gives back exactly that stem, so `fr.txt` names language `fr` |
| `LegacyTranslations.FileStemNoExtension` | build-translations.js:13 | a name with no dot, or whose only dot is its first character, is its own stem |
| `LegacyTranslations.ReadLuaData` | build-translations.js:9-24 | the directory loop builds `LuaData(files)` |
| `LegacyTranslations.LuaDataKeys` | build-translations.js:9-24 | languages are the file stems in first-occurrence order |
| `LegacyTranslations.LuaDataHas` | build-translations.js:22 | a language is present if and only if some file has that stem |
| `LegacyTranslations.LuaDataValue` | build-translations.js:22 | its table is that of the last file with that stem |
| `LegacyTranslations.LuaDataOnePerFile` | build-translations.js:9-24 | with distinct stems, one language per file in directory order |
| `LegacyTranslations.LuaDataValid` | build-translations.js:9-24 | every table read is a valid ordered map |
| `LegacyTranslations.RenderLegacyEntries` | build-translations.js:35-37 | the loop renders one `key = "value"` chunk per key, in order |
| `LegacyTranslations.LegacyEntryChunksSpec` | build-translations.js:35-37 | the i-th chunk is the i-th key with its value |
| `LegacyTranslations.RenderLegacy` | build-translations.js:28-51 | the output is header, `translations.lang = {...}` blocks joined by a blank line, footer; `langs_cnt` counts languages |
| `LegacyTranslations.LegacyBlocksSpec` | build-translations.js:32-49 | the i-th block is the i-th language with its chunks |
| `LegacyTranslations.BuildLegacyTranslations` | build-translations.js:9-51 | the whole script's output and count, `LegacyTranslationsModule(files)` and the number of distinct stems |
| `LegacyTranslations.LegacyModuleBlocks` | build-translations.js:9-51 | end to end: block i names the i-th distinct stem and renders the table of the last file with that stem |
| `LegacyTranslations.LegacyEmptyBlock` | build-translations.js:46 | a language with no entries still renders a block with an empty line |
| `LegacyTranslations.LegacyEntryKeepsSecondLineFeed` | build-translations.js:18 | a rendered entry of a three-line value still holds a raw line feed |
| `RegenTranslations.BaseNameSpec` | tools/regen-translations.py:13 | `os.path.basename` is the suffix after the last `/` |
| `RegenTranslations.PyStemSpec` | tools/regen-translations.py:13 | `os.path.splitext(...)[0]` drops the last extension unless only dots precede it |
| `RegenTranslations.LangNameOfAsset` | tools/regen-translations.py:9-13 | the language of `translations-assets/xx.txt` is `xx` |
| `RegenTranslations.ReadPairs` | tools/regen-translations.py:14-19 | the `update` loop builds the dict `FromPairs(matches)` |
| `RegenTranslations.ReadTranslations` | tools/regen-translations.py:10-21 | the file loop builds `TranslationsOf(files)` |
| `RegenTranslations.TranslationsSpec` | tools/regen-translations.py:10-21 | a language is present if and only if some file yields it, with the pairs of the last such file |
| `RegenTranslations.TranslationsValid` | tools/regen-translations.py:10-21 | all tables read are valid ordered maps |
| `RegenTranslations.KeyEndAtSound` | tools/regen-translations.py:37 | the key found ends where `\s*=` matches |
| `RegenTranslations.KeyEndAtGreedy` | tools/regen-translations.py:37 | greedy `\S+` takes the longest key that still reaches an `=` |
| `RegenTranslations.SearchKeySpec` | tools/regen-translations.py:37 | `re.search` reports the leftmost start with the longest key, and finds a match whenever one exists |
| `RegenTranslations.SearchKeyLeading` | tools/regen-translations.py:37 | `key =...` yields that key |
| `RegenTranslations.StepLine` | tools/regen-translations.py:32-47 | each base line writes at most one line |
| `RegenTranslations.KeyLineStep` | tools/regen-translations.py:37-45 | a key line succeeds if and only if the key is in the language or in the base; it writes the own or base value, and ignores until `]]` when the line has none; otherwise the failure is the `KeyError` |
| `RegenTranslations.RewritePass` | tools/regen-translations.py:31-47 | a pass writes at most one line per base line |
| `RegenTranslations.RewriteStops` | tools/regen-translations.py:32-47 | once a `KeyError` is raised, later lines change nothing |
| `RegenTranslations.IgnoredUntilClose` | tools/regen-translations.py:33-36 | in ignore mode, lines up to and including the first with `]]` are skipped and the mode ends |
| `RegenTranslations.IgnoredWithoutClose` | tools/regen-translations.py:33-36 | in ignore mode, lines without `]]` are skipped and the mode continues |
| `RegenTranslations.RewriteLineForLine` | tools/regen-translations.py:31-47 | a base file whose key lines all close on the same line is rewritten line for line |
| `RegenTranslations.RewriteLanguage` | tools/regen-translations.py:30-48 | the per-line loop writes `RewritePass(...).writes` and stops with its error |
| `RegenTranslations.RewriteScenario` | tools/regen-translations.py:31-47 | a comment, a translated key, an untranslated multi-line key and its closing line give copy, own value, base value with marker, and nothing |
| `RegenTranslations.NonBase` | tools/regen-translations.py:24-26 | the languages to rewrite never include the base language |
| `RegenTranslations.RegenOutputs` | tools/regen-translations.py:24-48 | every output file is for a non-base language and holds that language's pass over the base lines |
| `RegenTranslations.RegenComplete` | tools/regen-translations.py:24-48 | without an error, exactly the non-base languages are rewritten, in dict order |
| `RegenTranslations.RegenFailure` | tools/regen-translations.py:24-48 | an error comes from the last language written, after its partial file |
| `RegenTranslations.RegenStops` | tools/regen-translations.py:24-48 | after an error, later languages are not touched |
| `RegenTranslations.Regenerate` | tools/regen-translations.py:24-48 | the language loop equals `RegenLangs` over the dict's keys |
| `RegenTranslations.RegenAll` | tools/regen-translations.py:7-48 | the whole script equals `RegenTranslations(files, baseLines)` |

## Left out

- File and console I/O is not modelled:
  - `readFile`/`readFileSync`, `writeFile` and `console.log`;
  - `open`, `print` and `os.remove`.
  File contents are parameters. Outputs are returned values; the Python rewrite is a sequence of writes per language.
- Directory listing order (`readdirSync`, `glob.glob`) is taken as given, as the order of the `files` parameter.
- `JSON.parse` of the exports, languages and terms files is not modelled; the parsed records are parameters. `@cassolette/luahelpparser` is not part of this model; its AST is a parameter.
- Module-level globals (`luaLanguages`, `lua_data`, `translations`, the `overrides` record) are returned as values, not shared state.
- JS object key ordering is treated as insertion order. Integer-like keys (which JS enumerates first) and `__proto__` are not modelled.
- `JSON.stringify` is modelled on code points. Lone surrogate escaping (`\udXXX`) is not modelled.
- The Python `re.findall` with its `(?!\s*# Needs translation)` lookahead is not modelled as a matcher. Its list of `(key, value)` matches per file is a parameter (`LangFile.matches`).
- The base file's `splitlines()` is not modelled; the base lines are a parameter. `translations[BASE_LANG]` missing is modelled as the `KeyError` of the first untranslated key.
- The state of the event after an override raised an error is not modelled. The conversion aborts, and the partly patched objects are never read again.
- `EventOverrides.Modifiers`, `EventOverrides.OverridesTable`: the `...m` spread also copies `name` and `modify` into the record; the model keeps `kind`, `name` and the patch only.
- `LDoc.LDocTypeTable`, `LDoc.ParamFromAst`: the source looks the tag up in a plain object literal and throws only on a falsy result. So a tag naming an inherited `Object.prototype` member (`toString`, `constructor`, `valueOf`, `hasOwnProperty`, `__proto__`, ...) is accepted there. Its "type" is then a function or object, rendered as its JavaScript string form (`function toString() { [native code] }`, `[object Object]`). The model rejects these tags as unknown, because that string form depends on the JavaScript engine.
- `LDoc.Param.FromAst`, `LDoc.Param.AddDescription`, `LDoc.Event.FromAst`, `LDoc.Event.SetDescriptionLines`, `LDoc.Event.PushDescription`: in the source the description arrays are shared by reference. `fromAst` keeps the parser AST's `additionalDescriptions` and `description` arrays, and `setDescription(array)` keeps the caller's array, so `addDescription` and `pushDescription` also grow those outside arrays. The model treats the arrays as values and does not capture that aliasing. `convert` calls none of these setters, so its output is unaffected.
- `src/util/staging/mousebase/generate/eventEnum.converter.ts` and the `Converter` interface are not part of this model.
