/** The JSON-based translation compiler: language exports are read into one table per language
    code (records without a definition are dropped, definitions are escaped for a Lua string
    literal), then rendered as a Lua module; the term registry is rendered as a closed alias. */
module LuaTranslations {
  import opened Common
  import opened OrderedMaps

  /** A language of the catalog (`Language`; only the fields the compiler reads). */
  datatype Language = Language(name: string, code: string)

  /** One exported translation (`TranslationRecord`); a `null` definition is `None`. */
  datatype TranslationRecord = TranslationRecord(term: string, definition: Option<string>)

  /** A catalog language together with the records of its export file. */
  datatype LanguageExport = LanguageExport(language: Language, records: seq<TranslationRecord>)

  // ---------------------------------------------------------------------------------------
  // Escaping: JSON.stringify, quotes sliced off, backslash pairs collapsed

  /** A lower-case hexadecimal digit. */
  function HexDigit(n: nat): (c: char)
    requires n < 16
    ensures '0' <= c <= '9' || 'a' <= c <= 'f'
  {
    if n < 10 then (48 + n) as char else (87 + n) as char
  }

  /** The JSON text of one character inside a string (section 7 of RFC 8259, as produced by
      `JSON.stringify`): the two-character escapes for quote, backslash, backspace, tab, line
      feed, form feed and carriage return; `\u00xx` in lower-case hex for the other control
      characters; every other character as itself. */
  function JsonEscapeChar(c: char): string
  {
    if c == '"' then "\\\""
    else if c == '\\' then "\\\\"
    else if c == '\U{8}' then "\\b"
    else if c == '\t' then "\\t"
    else if c == '\n' then "\\n"
    else if c == '\U{C}' then "\\f"
    else if c == '\r' then "\\r"
    else if c < '\U{20}' then "\\u00" + [HexDigit(c as int / 16), HexDigit(c as int % 16)]
    else [c]
  }

  /** The escaped characters of `s`, one after another. */
  function JsonEscape(s: string): string
  {
    if s == [] then "" else JsonEscapeChar(s[0]) + JsonEscape(s[1..])
  }

  /** `JSON.stringify(s)` for a string `s`. */
  function JsonQuote(s: string): string
  {
    "\"" + JsonEscape(s) + "\""
  }

  /** `.replace(/\\\\/g, '\\')`: left to right, every pair of adjacent backslashes becomes one. */
  function CollapseBackslashes(s: string): string
  {
    if |s| >= 2 && s[0] == '\\' && s[1] == '\\' then "\\" + CollapseBackslashes(s[2..])
    else if s == [] then ""
    else [s[0]] + CollapseBackslashes(s[1..])
  }

  /** `encodeToLuaString`. */
  function EncodeToLuaString(s: string): string
  {
    var quoted := JsonQuote(s);
    CollapseBackslashes(quoted[1..|quoted| - 1])
  }

  /** Reference definition of the encoding, character by character: a backslash stays a single
      backslash, every other character is escaped as JSON escapes it. */
  function LuaEscapeChar(c: char): string
  {
    if c == '\\' then "\\" else JsonEscapeChar(c)
  }

  function LuaEscape(s: string): string
  {
    if s == [] then "" else LuaEscapeChar(s[0]) + LuaEscape(s[1..])
  }

  /** The escape of every character but the backslash is a backslash and then no backslash, or
      a single character that is not a backslash. */
  lemma {:induction false} JsonEscapeCharShape(c: char)
    ensures c != '\\' ==>
      || (|JsonEscapeChar(c)| == 1 && JsonEscapeChar(c)[0] != '\\')
      || (|JsonEscapeChar(c)| >= 2 && JsonEscapeChar(c)[0] == '\\' && '\\' !in JsonEscapeChar(c)[1..])
    ensures c == '\\' ==> JsonEscapeChar(c) == "\\\\"
  {
    if c < '\U{20}' && c != '\U{8}' && c != '\t' && c != '\n' && c != '\U{C}' && c != '\r' {
      var h := [HexDigit(c as int / 16), HexDigit(c as int % 16)];
      assert JsonEscapeChar(c)[1..] == "u00" + h;
    }
  }

  /** Text without a backslash passes through the collapse unchanged. */
  lemma {:induction false} CollapseNoBackslash(u: string, r: string)
    requires '\\' !in u
    ensures CollapseBackslashes(u + r) == u + CollapseBackslashes(r)
  {
    if u != [] {
      assert (u + r)[0] == u[0] && u[0] in u;
      assert (u + r)[1..] == u[1..] + r;
      assert CollapseBackslashes(u + r) == [u[0]] + CollapseBackslashes(u[1..] + r);
      assert forall x :: x in u[1..] ==> x in u;
      CollapseNoBackslash(u[1..], r);
      calc {
        CollapseBackslashes(u + r);
        [u[0]] + (u[1..] + CollapseBackslashes(r));
        ([u[0]] + u[1..]) + CollapseBackslashes(r);
        { assert [u[0]] + u[1..] == u; }
        u + CollapseBackslashes(r);
      }
    } else {
      assert u + r == r;
    }
  }

  /** The collapse works escape by escape: it never joins the end of one escape to the next. */
  lemma {:induction false} CollapseEscapeChar(c: char, r: string)
    ensures CollapseBackslashes(JsonEscapeChar(c) + r) == LuaEscapeChar(c) + CollapseBackslashes(r)
  {
    JsonEscapeCharShape(c);
    var t := JsonEscapeChar(c);
    if c == '\\' {
      assert (t + r)[2..] == r;
    } else if |t| == 1 {
      CollapseNoBackslash(t, r);
    } else {
      var u := t[1..];
      assert t + r == "\\" + (u + r);
      assert (t + r)[1] == u[0] && u[0] in u;
      assert (t + r)[1..] == u + r;
      CollapseNoBackslash(u, r);
    }
  }

  lemma {:induction false} CollapseJsonEscape(s: string)
    ensures CollapseBackslashes(JsonEscape(s)) == LuaEscape(s)
  {
    if s != [] {
      CollapseEscapeChar(s[0], JsonEscape(s[1..]));
      CollapseJsonEscape(s[1..]);
    }
  }

  /** `encodeToLuaString` escapes each character on its own: a backslash is emitted as a single
      backslash, every other character exactly as `JSON.stringify` escapes it. */
  lemma {:induction false} EncodeToLuaStringSpec(s: string)
    ensures EncodeToLuaString(s) == LuaEscape(s)
  {
    var quoted := JsonQuote(s);
    assert quoted[1..|quoted| - 1] == JsonEscape(s);
    CollapseJsonEscape(s);
  }

  /** Without backslashes, the encoding is exactly the JSON escape without the quotes. */
  lemma {:induction false} LuaEscapeNoBackslash(s: string)
    requires '\\' !in s
    ensures LuaEscape(s) == JsonEscape(s)
  {
    if s != [] {
      assert s[0] in s && forall x :: x in s[1..] ==> x in s;
      LuaEscapeNoBackslash(s[1..]);
    }
  }

  lemma {:induction false} EncodeWithoutBackslash(s: string)
    requires '\\' !in s
    ensures EncodeToLuaString(s) == JsonEscape(s)
  {
    EncodeToLuaStringSpec(s);
    LuaEscapeNoBackslash(s);
  }

  /** The encoding of a concatenation is the concatenation of the encodings, so every quote
      and every line feed is escaped, wherever it occurs. */
  lemma {:induction false} LuaEscapeAppend(a: string, b: string)
    ensures LuaEscape(a + b) == LuaEscape(a) + LuaEscape(b)
  {
    if a != [] {
      assert (a + b)[0] == a[0] && (a + b)[1..] == a[1..] + b;
      assert LuaEscape(a + b) == LuaEscapeChar(a[0]) + LuaEscape(a[1..] + b);
      LuaEscapeAppend(a[1..], b);
    } else {
      assert a + b == b;
    }
  }

  lemma {:induction false} EncodeAppend(a: string, b: string)
    ensures EncodeToLuaString(a + b) == EncodeToLuaString(a) + EncodeToLuaString(b)
  {
    EncodeToLuaStringSpec(a + b);
    EncodeToLuaStringSpec(a);
    EncodeToLuaStringSpec(b);
    LuaEscapeAppend(a, b);
  }

  /** No control character survives the encoding: in particular no raw line feed. */
  lemma {:induction false} LuaEscapeNoControl(s: string)
    ensures forall i :: 0 <= i < |LuaEscape(s)| ==> LuaEscape(s)[i] >= '\U{20}'
  {
    if s != [] {
      LuaEscapeNoControl(s[1..]);
      var c := s[0];
      if c < '\U{20}' && c != '\U{8}' && c != '\t' && c != '\n' && c != '\U{C}' && c != '\r' {
        var h := [HexDigit(c as int / 16), HexDigit(c as int % 16)];
        assert LuaEscapeChar(c) == "\\u00" + h;
      }
    }
  }

  lemma {:induction false} EncodeNoControl(s: string)
    ensures forall i :: 0 <= i < |EncodeToLuaString(s)| ==> EncodeToLuaString(s)[i] >= '\U{20}'
  {
    EncodeToLuaStringSpec(s);
    LuaEscapeNoControl(s);
  }

  /** Quote and line feed encode as their two-character escapes. */
  lemma {:induction false} EncodeQuoteAndLineFeed()
    ensures EncodeToLuaString("\"") == "\\\""
    ensures EncodeToLuaString("\n") == "\\n"
  {
    EncodeToLuaStringSpec("\"");
    EncodeToLuaStringSpec("\n");
  }

  /** Text of plain characters (no quote, backslash or control character) is left as it is. */
  lemma {:induction false} LuaEscapePlain(s: string)
    requires forall i :: 0 <= i < |s| ==> s[i] >= '\U{20}' && s[i] != '"' && s[i] != '\\'
    ensures LuaEscape(s) == s
  {
    if s != [] {
      LuaEscapePlain(s[1..]);
      assert s == [s[0]] + s[1..];
    }
  }

  /** The definition of the first end-to-end example: both quotes and the line feed are escaped. */
  lemma {:induction false} EncodeScenario()
    ensures EncodeToLuaString("hi" + "\n" + "\"" + "there" + "\"") == "hi" + "\\n" + "\\\"" + "there" + "\\\""
  {
    var hi, there := "hi", "there";
    LuaEscapePlain(hi);
    LuaEscapePlain(there);
    EncodeToLuaStringSpec(hi);
    EncodeToLuaStringSpec(there);
    EncodeQuoteAndLineFeed();
    EncodeAppend(hi, "\n");
    EncodeAppend(hi + "\n", "\"");
    EncodeAppend(hi + "\n" + "\"", there);
    EncodeAppend(hi + "\n" + "\"" + there, "\"");
  }

  /** A backslash is not escaped, so a backslash followed by `n` and a real line feed are
      encoded alike: no Lua reader can tell them apart. */
  lemma {:induction false} EncodeNotInjective()
    ensures EncodeToLuaString("\\n") == EncodeToLuaString("\n") == "\\n"
  {
    EncodeToLuaStringSpec("\\n");
    EncodeToLuaStringSpec("\n");
  }

  // ---------------------------------------------------------------------------------------
  // Reading the exports

  /** The table of one language (`luaLang`): each record with a definition, in order, stores
      its encoded definition under its term; a record whose definition is `null` is skipped. */
  function LanguageTable(records: seq<TranslationRecord>): OrderedMap<string>
  {
    if records == [] then Empty()
    else
      var table := LanguageTable(records[..|records| - 1]);
      var d := records[|records| - 1];
      if d.definition.None? then table else table.Put(d.term, EncodeToLuaString(d.definition.value))
  }

  /** Reference: the definition of the last record for `term` that has one. */
  function LastDefinition(records: seq<TranslationRecord>, term: string): Option<string>
  {
    if records == [] then None
    else
      var d := records[|records| - 1];
      if d.term == term && d.definition.Some? then d.definition
      else LastDefinition(records[..|records| - 1], term)
  }

  /** Reference: the terms that have a definition, in order of their first record with one. */
  function DefinedTerms(records: seq<TranslationRecord>): seq<string>
  {
    if records == [] then []
    else
      var d := records[|records| - 1];
      DefinedTerms(records[..|records| - 1]) + if d.definition.Some? then [d.term] else []
  }

  /** A term has a definition exactly when some record for it has a non-`null` one. */
  lemma {:induction false} LastDefinitionSome(records: seq<TranslationRecord>, term: string)
    ensures LastDefinition(records, term).Some? <==>
      exists j :: 0 <= j < |records| && records[j].term == term && records[j].definition.Some?
  {
    if records != [] {
      var init := records[..|records| - 1];
      LastDefinitionSome(init, term);
      assert forall j :: 0 <= j < |init| ==> init[j] == records[j];
    }
  }

  /** The table of a language holds a term exactly when some record for it has a definition
      (records whose definition is `null` never show up), under the encoding of the last such
      definition. */
  lemma {:induction false} LanguageTableSpec(records: seq<TranslationRecord>, term: string)
    ensures LanguageTable(records).Valid()
    ensures term in LanguageTable(records).entries <==> LastDefinition(records, term).Some?
    ensures term in LanguageTable(records).entries ==>
      LanguageTable(records).entries[term] == EncodeToLuaString(LastDefinition(records, term).value)
  {
    if records != [] {
      var init := records[..|records| - 1];
      var d := records[|records| - 1];
      LanguageTableSpec(init, term);
      if d.definition.Some? {
        LanguageTableSpec(init, d.term);
        PutSpec(LanguageTable(init), d.term, EncodeToLuaString(d.definition.value));
      }
    }
  }

  /** The table lists its terms in the order they were first defined. */
  lemma {:induction false} LanguageTableKeys(records: seq<TranslationRecord>)
    ensures LanguageTable(records).Valid()
    ensures LanguageTable(records).keys == Dedup(DefinedTerms(records))
  {
    if records != [] {
      var init := records[..|records| - 1];
      var d := records[|records| - 1];
      LanguageTableKeys(init);
      var terms := DefinedTerms(init);
      if d.definition.Some? {
        DedupMembers(terms, d.term);
        PutSpec(LanguageTable(init), d.term, EncodeToLuaString(d.definition.value));
        assert DefinedTerms(records) == terms + [d.term];
        assert (terms + [d.term])[..|terms|] == terms;
      } else {
        assert DefinedTerms(records) == terms;
      }
    }
  }

  /** All tables of the catalog (`luaLanguages`): each export, in catalog order, stores its
      language's table under the language code. */
  function LuaLanguages(exports: seq<LanguageExport>): OrderedMap<OrderedMap<string>>
  {
    if exports == [] then Empty()
    else
      var x := exports[|exports| - 1];
      LuaLanguages(exports[..|exports| - 1]).Put(x.language.code, LanguageTable(x.records))
  }

  /** Reference: the records of the last export of language `code`. */
  function LastExport(exports: seq<LanguageExport>, code: string): Option<seq<TranslationRecord>>
  {
    if exports == [] then None
    else if exports[|exports| - 1].language.code == code then Some(exports[|exports| - 1].records)
    else LastExport(exports[..|exports| - 1], code)
  }

  function Codes(exports: seq<LanguageExport>): seq<string>
  {
    if exports == [] then [] else Codes(exports[..|exports| - 1]) + [exports[|exports| - 1].language.code]
  }

  /** One table per distinct language code, in catalog order: a code listed twice keeps its
      first place. */
  lemma {:induction false} LuaLanguagesKeys(exports: seq<LanguageExport>)
    ensures LuaLanguages(exports).Valid()
    ensures LuaLanguages(exports).keys == Dedup(Codes(exports))
  {
    if exports != [] {
      var init := exports[..|exports| - 1];
      var x := exports[|exports| - 1];
      LuaLanguagesKeys(init);
      LuaLanguagesSpec(init, x.language.code);
      DedupMembers(Codes(init), x.language.code);
      PutSpec(LuaLanguages(init), x.language.code, LanguageTable(x.records));
    }
  }

  /** A code has a table exactly when some export has that code, and the table is the one of
      its last export. */
  lemma {:induction false} LuaLanguagesSpec(exports: seq<LanguageExport>, code: string)
    ensures LuaLanguages(exports).Valid()
    ensures code in LuaLanguages(exports).entries <==> LastExport(exports, code).Some?
    ensures code in LuaLanguages(exports).entries ==>
      LuaLanguages(exports).entries[code] == LanguageTable(LastExport(exports, code).value)
  {
    if exports != [] {
      var init := exports[..|exports| - 1];
      var x := exports[|exports| - 1];
      LuaLanguagesSpec(init, code);
      PutSpec(LuaLanguages(init), x.language.code, LanguageTable(x.records));
    }
  }

  /** `readLuaLanguages`: for each catalog language, its records are read into a fresh table
      that then replaces the language's entry. */
  method ReadLuaLanguages(exports: seq<LanguageExport>) returns (langs: OrderedMap<OrderedMap<string>>)
    ensures langs == LuaLanguages(exports)
  {
    langs := Empty();
    var i := 0;
    while i < |exports|
      invariant 0 <= i <= |exports|
      invariant langs == LuaLanguages(exports[..i])
    {
      var records := exports[i].records;
      var luaLang: OrderedMap<string> := Empty();
      var j := 0;
      while j < |records|
        invariant 0 <= j <= |records|
        invariant luaLang == LanguageTable(records[..j])
      {
        assert records[..j + 1][..j] == records[..j];
        var d := records[j];
        if d.definition.Some? {
          luaLang := luaLang.Put(d.term, EncodeToLuaString(d.definition.value));
        }
        j := j + 1;
      }
      assert records[..j] == records;
      assert exports[..i + 1][..i] == exports[..i];
      langs := langs.Put(exports[i].language.code, luaLang);
      i := i + 1;
    }
    assert exports[..i] == exports;
  }

  // ---------------------------------------------------------------------------------------
  // Rendering the Lua module

  const Indent := "    "

  /** One entry of a language table: `["term"] = "value"`. */
  function EntryChunk(term: string, value: string): string
  {
    "[\"" + term + "\"] = \"" + value + "\""
  }

  /** The entries of the keys `keys` of a table, in order (`loc_chunks`). */
  function EntryChunks(keys: seq<string>, entries: map<string, string>): (r: seq<string>)
    requires forall k :: k in keys ==> k in entries
    ensures |r| == |keys|
  {
    if keys == [] then []
    else
      var k := keys[|keys| - 1];
      EntryChunks(keys[..|keys| - 1], entries) + [EntryChunk(k, entries[k])]
  }

  /** The text between the braces of a table: nothing when there are no entries, otherwise the
      entries each indented by four spaces and separated by a comma and a line break. */
  function BlockBody(chunks: seq<string>): string
  {
    if |chunks| > 0 then Indent + Join(chunks, ",\n" + Indent) else ""
  }

  function LanguageBlock(code: string, chunks: seq<string>): string
  {
    "translations[\"" + code + "\"] = {\n" + BlockBody(chunks) + "\n}"
  }

  /** The block of each language, in the order of the language codes (`langChunks`). */
  function LanguageBlocks(codes: seq<string>, langs: map<string, OrderedMap<string>>): (r: seq<string>)
    requires forall c :: c in codes ==> c in langs && langs[c].Valid()
    ensures |r| == |codes|
  {
    if codes == [] then []
    else
      var c := codes[|codes| - 1];
      assert c in codes;
      var table := langs[c];
      assert table.Valid();
      LanguageBlocks(codes[..|codes| - 1], langs) + [LanguageBlock(c, EntryChunks(table.keys, table.entries))]
  }

  const ModuleHeader := "local translations = {}\n\n"
  const ModuleFooter := "\n\nreturn translations\n"

  function LuaModule(blocks: seq<string>): string
  {
    ModuleHeader + Join(blocks, "\n\n") + ModuleFooter
  }

  /** Every table of a catalog read from exports is valid. */
  ghost predicate ValidTables(langs: OrderedMap<OrderedMap<string>>)
  {
    langs.Valid() && forall c :: c in langs.entries ==> langs.entries[c].Valid()
  }

  lemma {:induction false} LuaLanguagesValid(exports: seq<LanguageExport>)
    ensures ValidTables(LuaLanguages(exports))
  {
    LuaLanguagesSpec(exports, "");
    forall c | c in LuaLanguages(exports).entries ensures LuaLanguages(exports).entries[c].Valid() {
      LuaLanguagesSpec(exports, c);
      LanguageTableSpec(LastExport(exports, c).value, "");
    }
  }

  /** The entries of one table, rendered in key order. */
  method RenderEntries(table: OrderedMap<string>) returns (locChunks: seq<string>)
    requires table.Valid()
    ensures locChunks == EntryChunks(table.keys, table.entries)
  {
    locChunks := [];
    var i := 0;
    while i < |table.keys|
      invariant 0 <= i <= |table.keys|
      invariant locChunks == EntryChunks(table.keys[..i], table.entries)
    {
      assert table.keys[..i + 1][..i] == table.keys[..i];
      var key := table.keys[i];
      locChunks := locChunks + [EntryChunk(key, table.entries[key])];
      i := i + 1;
    }
    assert table.keys[..i] == table.keys;
  }

  /** The body of a table from its entries (`loc_chunk`). */
  method RenderBody(locChunks: seq<string>) returns (locChunk: string)
    ensures locChunk == BlockBody(locChunks)
  {
    locChunk := "";
    if |locChunks| > 0 {
      locChunk := Indent;
      locChunk := locChunk + Join(locChunks, ",\n" + Indent);
    }
  }

  /** The rendering of `build-translations.ts`: one block per language, then the framing; also
      the number of languages rendered (`langsCnt`). */
  method RenderLuaModule(langs: OrderedMap<OrderedMap<string>>) returns (output: string, langsCnt: nat)
    requires ValidTables(langs)
    ensures output == LuaModule(LanguageBlocks(langs.keys, langs.entries))
    ensures langsCnt == |langs.keys|
  {
    output := ModuleHeader;
    var langChunks: seq<string> := [];
    langsCnt := 0;
    var i := 0;
    while i < |langs.keys|
      invariant 0 <= i <= |langs.keys| && langsCnt == i
      invariant langChunks == LanguageBlocks(langs.keys[..i], langs.entries)
    {
      assert langs.keys[..i + 1][..i] == langs.keys[..i];
      var lang := langs.keys[i];
      var locChunks := RenderEntries(langs.entries[lang]);
      var locChunk := RenderBody(locChunks);
      langChunks := langChunks + ["translations[\"" + lang + "\"] = {\n" + locChunk + "\n}"];
      langsCnt := langsCnt + 1;
      i := i + 1;
    }
    assert langs.keys[..i] == langs.keys;
    output := output + Join(langChunks, "\n\n") + ModuleFooter;
  }

  /** The lines of a joined list whose items are each preceded by `pre`, all but the last
      followed by `post`. */
  function FramedLines(chunks: seq<string>, pre: string, post: string): (r: seq<string>)
    requires |chunks| >= 1
    ensures |r| == |chunks|
  {
    if |chunks| == 1 then [pre + chunks[0]]
    else [pre + chunks[0] + post] + FramedLines(chunks[1..], pre, post)
  }

  lemma {:induction false} FramedLinesShape(chunks: seq<string>, pre: string, post: string)
    requires |chunks| >= 1
    ensures |FramedLines(chunks, pre, post)| == |chunks|
    ensures forall i :: 0 <= i < |chunks| - 1 ==> FramedLines(chunks, pre, post)[i] == pre + chunks[i] + post
    ensures FramedLines(chunks, pre, post)[|chunks| - 1] == pre + chunks[|chunks| - 1]
  {
    if |chunks| > 1 {
      FramedLinesShape(chunks[1..], pre, post);
    }
  }

  lemma {:induction false} JoinFramed(chunks: seq<string>, pre: string, post: string, nl: string)
    requires |chunks| >= 1
    ensures pre + Join(chunks, post + nl + pre) == Join(FramedLines(chunks, pre, post), nl)
  {
    if |chunks| > 1 {
      var rest := chunks[1..];
      JoinFramed(rest, pre, post, nl);
      assert FramedLines(chunks, pre, post)[1..] == FramedLines(rest, pre, post);
      calc {
        pre + Join(chunks, post + nl + pre);
        pre + (chunks[0] + (post + nl + pre) + Join(rest, post + nl + pre));
        (pre + chunks[0] + post) + nl + (pre + Join(rest, post + nl + pre));
        (pre + chunks[0] + post) + nl + Join(FramedLines(rest, pre, post), nl);
        Join(FramedLines(chunks, pre, post), nl);
      }
    }
  }

  /** A table with entries renders one line per entry, each indented by four spaces, every line
      but the last ending in a comma: there is no trailing comma. */
  lemma {:induction false} BodyLines(chunks: seq<string>)
    requires |chunks| >= 1
    requires forall i :: 0 <= i < |chunks| ==> '\n' !in chunks[i]
    ensures |Split(BlockBody(chunks), '\n')| == |chunks|
    ensures forall i :: 0 <= i < |chunks| - 1 ==> Split(BlockBody(chunks), '\n')[i] == Indent + chunks[i] + ","
    ensures Split(BlockBody(chunks), '\n')[|chunks| - 1] == Indent + chunks[|chunks| - 1]
  {
    assert ",\n" + Indent == "," + "\n" + Indent;
    JoinFramed(chunks, Indent, ",", "\n");
    FramedLinesShape(chunks, Indent, ",");
    var lines := FramedLines(chunks, Indent, ",");
    forall i | 0 <= i < |lines| ensures '\n' !in lines[i] {
      assert '\n' !in Indent && '\n' !in ",";
      if i < |chunks| - 1 {
        assert lines[i] == Indent + chunks[i] + ",";
      }
    }
    SplitJoin(lines, '\n');
  }

  /** A language without entries renders an empty body. */
  lemma {:induction false} EmptyBlock(code: string)
    ensures LanguageBlock(code, EntryChunks([], map[])) == "translations[\"" + code + "\"] = {\n\n}"
  {
  }

  lemma {:induction false} EntryChunksSpec(keys: seq<string>, entries: map<string, string>, i: nat)
    requires forall k :: k in keys ==> k in entries
    requires i < |keys|
    ensures EntryChunks(keys, entries)[i] == EntryChunk(keys[i], entries[keys[i]])
  {
    var init := keys[..|keys| - 1];
    assert forall k :: k in init ==> k in keys;
    var k := keys[|keys| - 1];
    assert EntryChunks(keys, entries) == EntryChunks(init, entries) + [EntryChunk(k, entries[k])];
    if i < |init| {
      EntryChunksSpec(init, entries, i);
    }
  }

  lemma {:induction false} LanguageBlocksSpec(codes: seq<string>, langs: map<string, OrderedMap<string>>, i: nat)
    requires forall c :: c in codes ==> c in langs && langs[c].Valid()
    requires i < |codes|
    ensures LanguageBlocks(codes, langs)[i] ==
      LanguageBlock(codes[i], EntryChunks(langs[codes[i]].keys, langs[codes[i]].entries))
  {
    var init := codes[..|codes| - 1];
    assert forall c :: c in init ==> c in codes;
    if i < |init| {
      var c := codes[|codes| - 1];
      var block := LanguageBlock(c, EntryChunks(langs[c].keys, langs[c].entries));
      assert LanguageBlocks(codes, langs) == LanguageBlocks(init, langs) + [block];
      LanguageBlocksSpec(init, langs, i);
    }
  }

  /** The whole compiler on a catalog: read, then render. */
  function Translations(exports: seq<LanguageExport>): string
  {
    LuaLanguagesValid(exports);
    var langs := LuaLanguages(exports);
    LuaModule(LanguageBlocks(langs.keys, langs.entries))
  }

  /** One block per distinct language code, in catalog order; the block of a code renders the
      table of its last export. */
  lemma {:induction false} TranslationsBlocks(exports: seq<LanguageExport>, i: nat)
    requires i < |LuaLanguages(exports).keys|
    ensures ValidTables(LuaLanguages(exports))
    ensures LuaLanguages(exports).keys == Dedup(Codes(exports))
    ensures LastExport(exports, LuaLanguages(exports).keys[i]).Some?
    ensures
      var langs := LuaLanguages(exports);
      var table := LanguageTable(LastExport(exports, langs.keys[i]).value);
      && table.Valid()
      && |LanguageBlocks(langs.keys, langs.entries)| == |langs.keys|
      && LanguageBlocks(langs.keys, langs.entries)[i] == LanguageBlock(langs.keys[i], EntryChunks(table.keys, table.entries))
  {
    var langs := LuaLanguages(exports);
    LuaLanguagesValid(exports);
    LuaLanguagesKeys(exports);
    LuaLanguagesSpec(exports, langs.keys[i]);
    LanguageBlocksSpec(langs.keys, langs.entries, i);
  }

  /** The `j`-th entry of a language's block is its `j`-th defined term with the encoding of
      that term's last definition. */
  lemma {:induction false} TableEntry(records: seq<TranslationRecord>, j: nat)
    requires j < |LanguageTable(records).keys|
    ensures LanguageTable(records).Valid()
    ensures LanguageTable(records).keys == Dedup(DefinedTerms(records))
    ensures LastDefinition(records, LanguageTable(records).keys[j]).Some?
    ensures
      var table := LanguageTable(records);
      var term := table.keys[j];
      EntryChunks(table.keys, table.entries)[j] == EntryChunk(term, EncodeToLuaString(LastDefinition(records, term).value))
  {
    var table := LanguageTable(records);
    LanguageTableKeys(records);
    LanguageTableSpec(records, table.keys[j]);
    EntryChunksSpec(table.keys, table.entries, j);
  }

  /** The first end-to-end example: one English record for term `X` renders one block holding
      one entry, with both quotes and the line feed of the definition escaped. */
  lemma {:induction false} TranslationsScenario()
    ensures
      var def := "hi" + "\n" + "\"" + "there" + "\"";
      var langs := LuaLanguages([LanguageExport(Language("English", "en"), [TranslationRecord("X", Some(def))])]);
      && ValidTables(langs)
      && LanguageBlocks(langs.keys, langs.entries)
         == [LanguageBlock("en", [EntryChunk("X", "hi" + "\\n" + "\\\"" + "there" + "\\\"")])]
  {
    var def := "hi" + "\n" + "\"" + "there" + "\"";
    var records := [TranslationRecord("X", Some(def))];
    var exports := [LanguageExport(Language("English", "en"), records)];
    assert records[..0] == [] && exports[..0] == [];
    var e := EncodeToLuaString(def);
    EncodeScenario();
    var table := LanguageTable(records);
    assert LanguageTable(records[..0]) == Empty();
    assert table == Empty<string>().Put("X", e);
    assert table == OrderedMap(["X"], map["X" := e]);
    var langs := LuaLanguages(exports);
    assert LuaLanguages(exports[..0]) == Empty();
    assert langs == Empty<OrderedMap<string>>().Put("en", table);
    assert langs == OrderedMap(["en"], map["en" := table]);
    LuaLanguagesValid(exports);
    assert ["X"][..0] == [] && ["en"][..0] == [];
    assert EntryChunks(table.keys, table.entries) == [EntryChunk("X", e)];
  }

  // ---------------------------------------------------------------------------------------
  // The term-key alias

  const AliasHeader := "--- @alias BtTranslationKeys"

  /** One member of the alias: `---| '"term"'`. */
  function TermKeyLine(term: string): string
  {
    "---| '\"" + term + "\"'"
  }

  function TermKeyLines(terms: seq<string>): (r: seq<string>)
    ensures |r| == |terms|
  {
    if terms == [] then [] else TermKeyLines(terms[..|terms| - 1]) + [TermKeyLine(terms[|terms| - 1])]
  }

  /** The term-key file: the header line and one line per registry term, joined by line feeds. */
  function TermKeys(terms: seq<string>): string
  {
    Join([AliasHeader] + TermKeyLines(terms), "\n")
  }

  /** The term-key rendering of `build-translations.ts`. */
  method RenderTermKeys(terms: seq<string>) returns (out: string)
    ensures out == TermKeys(terms)
  {
    var termsOutput := [AliasHeader];
    var i := 0;
    while i < |terms|
      invariant 0 <= i <= |terms|
      invariant termsOutput == [AliasHeader] + TermKeyLines(terms[..i])
    {
      assert terms[..i + 1][..i] == terms[..i];
      termsOutput := termsOutput + [TermKeyLine(terms[i])];
      i := i + 1;
    }
    assert terms[..i] == terms;
    out := Join(termsOutput, "\n");
  }

  lemma {:induction false} TermKeyLinesSpec(terms: seq<string>, i: nat)
    requires i < |terms|
    ensures TermKeyLines(terms)[i] == TermKeyLine(terms[i])
  {
    var init := terms[..|terms| - 1];
    if i < |init| {
      TermKeyLinesSpec(init, i);
    }
  }

  /** The term of an alias line is the text between its fixed prefix and suffix. */
  lemma {:induction false} TermOfLine(term: string)
    ensures |TermKeyLine(term)| == |term| + 9
    ensures TermKeyLine(term)[7..|term| + 7] == term
  {
    var line := TermKeyLine(term);
    assert line == "---| '\"" + (term + "\"'");
    assert |"---| '\""| == 7;
  }

  /** For terms without line feeds, the term-key file reads back, line by line, as the header and
      then one alias line per registry term, in registry order, with no trailing line. */
  lemma {:induction false} TermKeysLines(terms: seq<string>)
    requires forall i :: 0 <= i < |terms| ==> '\n' !in terms[i]
    ensures Split(TermKeys(terms), '\n') == [AliasHeader] + TermKeyLines(terms)
    ensures |Split(TermKeys(terms), '\n')| == |terms| + 1
    ensures forall i :: 0 <= i < |terms| ==> Split(TermKeys(terms), '\n')[i + 1] == TermKeyLine(terms[i])
  {
    var lines := [AliasHeader] + TermKeyLines(terms);
    forall i | 0 <= i < |lines| ensures '\n' !in lines[i] {
      if i > 0 {
        TermKeyLinesSpec(terms, i - 1);
        TermKeyLineNoLineFeed(terms[i - 1]);
      }
    }
    SplitJoin(lines, '\n');
    forall i | 0 <= i < |terms| ensures lines[i + 1] == TermKeyLine(terms[i]) {
      TermKeyLinesSpec(terms, i);
    }
  }

  lemma {:induction false} TermKeyLineNoLineFeed(term: string)
    requires '\n' !in term
    ensures '\n' !in TermKeyLine(term)
  {
    var pre, post := "---| '\"", "\"'";
    assert '\n' !in pre && '\n' !in post;
    assert TermKeyLine(term) == pre + term + post;
  }

  /** The second end-to-end example: registry `A`, `B`. */
  lemma {:induction false} TermKeysScenario()
    ensures TermKeys(["A", "B"]) == AliasHeader + "\n" + "---| '\"A\"'" + "\n" + "---| '\"B\"'"
  {
    var terms := ["A", "B"];
    assert terms[..1] == ["A"] && terms[..1][..0] == [];
    assert TermKeyLines(terms) == [TermKeyLine("A"), TermKeyLine("B")];
    var lines := [AliasHeader] + TermKeyLines(terms);
    assert lines == [AliasHeader, TermKeyLine("A"), TermKeyLine("B")];
    assert lines[1..][1..] == [TermKeyLine("B")];
    assert Join(lines[1..][1..], "\n") == TermKeyLine("B");
    assert Join(lines[1..], "\n") == TermKeyLine("A") + "\n" + TermKeyLine("B");
    assert Join(lines, "\n") == AliasHeader + "\n" + (TermKeyLine("A") + "\n" + TermKeyLine("B"));
  }
}
