/** The translation re-sync script: every language file but the base (English) one is rewritten
    in the layout of the base file, each key taking the language's own value or, failing that,
    the base value marked as needing translation. */
module RegenTranslations {
  import opened Common
  import opened OrderedMaps

  const BaseLang := "en"
  const AssetDir := "translations-assets/"

  // ---------------------------------------------------------------------------------------
  // Language names: `os.path.splitext(os.path.basename(path))[0]`

  /** `os.path.basename`: the text after the last `/`. */
  function BaseName(path: string): (r: string)
    ensures |r| <= |path|
  {
    match LastIndexOf(path, '/')
    case None => path
    case Some(i) => path[i + 1..]
  }

  /** The base name is the end of the path that holds no `/`. */
  lemma {:induction false} BaseNameSpec(path: string)
    ensures BaseName(path) == path[|path| - |BaseName(path)|..] && '/' !in BaseName(path)
    ensures BaseName(path) != path ==> path[|path| - |BaseName(path)| - 1] == '/'
  {
  }

  /** Only dots in `name[..i]`. */
  predicate OnlyDots(name: string, i: nat)
    requires i <= |name|
  {
    forall j :: 0 <= j < i ==> name[j] == '.'
  }

  /** `os.path.splitext(name)[0]`: the name without its extension, the extension being the text
      from the last dot on, unless nothing but dots precedes that dot. */
  function PyStem(name: string): (r: string)
    ensures |r| <= |name|
  {
    match LastIndexOf(name, '.')
    case None => name
    case Some(i) => if OnlyDots(name, i) then name else name[..i]
  }

  /** The stem is a prefix of the name; what it drops is an extension: a dot that something
      other than dots precedes, followed by no further dot. */
  lemma {:induction false} PyStemSpec(name: string)
    ensures PyStem(name) == name[..|PyStem(name)|]
    ensures PyStem(name) != name ==>
      name[|PyStem(name)|] == '.' && '.' !in name[|PyStem(name)| + 1..] && !OnlyDots(name, |PyStem(name)|)
  {
  }

  function LangName(path: string): string
  {
    PyStem(BaseName(path))
  }

  /** The base name of a path in a directory is the file's own name. */
  lemma {:induction false} BaseNameInDir(dir: string, name: string)
    requires dir != [] && dir[|dir| - 1] == '/' && '/' !in name
    ensures BaseName(dir + name) == name
  {
    LastIndexOfAfter(dir, name, '/');
    assert (dir + name)[|dir|..] == name;
  }

  /** The stem of a name with one extension is the name without it, unless the name starts
      with a dot. */
  lemma {:induction false} PyStemOfExtension(stem: string, ext: string)
    requires stem != [] && stem[0] != '.' && '.' !in ext
    ensures PyStem(stem + "." + ext) == stem
  {
    LastIndexOfAfter(stem + ".", ext, '.');
    var name := stem + "." + ext;
    assert !OnlyDots(name, |stem|) by {
      assert name[0] == stem[0];
    }
    assert name[..|stem|] == stem;
  }

  /** The files the glob finds (the `.txt` files of the asset directory) are named after their
      language: a name that does not start with a dot (the glob skips those) loses just its
      `.txt`. */
  lemma {:induction false} LangNameOfAsset(stem: string)
    requires stem != [] && stem[0] != '.' && '/' !in stem
    ensures LangName(AssetDir + stem + ".txt") == stem
  {
    var name := stem + ".txt";
    assert '/' !in name by {
      assert name == stem + ['.', 't', 'x', 't'];
    }
    assert AssetDir + stem + ".txt" == AssetDir + name;
    BaseNameInDir(AssetDir, name);
    assert name == stem + "." + "txt";
    PyStemOfExtension(stem, "txt");
  }

  // ---------------------------------------------------------------------------------------
  // Reading the catalog

  /** One language file: its path and the `(key, value)` matches of `re.findall` on its text,
      in order. */
  datatype LangFile = LangFile(path: string, matches: seq<(string, string)>)

  /** What one file contributes: its language and its pairs, a later match of a key
      overwriting an earlier one. */
  function LangTable(f: LangFile): (string, OrderedMap<string>)
  {
    (LangName(f.path), FromPairs(f.matches))
  }

  function LangTables(files: seq<LangFile>): (r: seq<(string, OrderedMap<string>)>)
    ensures |r| == |files|
  {
    seq(|files|, i requires 0 <= i < |files| => LangTable(files[i]))
  }

  /** `translations`: each file, in glob order, stores its pairs under its language. */
  function TranslationsOf(files: seq<LangFile>): OrderedMap<OrderedMap<string>>
  {
    FromPairs(LangTables(files))
  }

  /** `pairs.update({key: val})` over the matches of one file. */
  method ReadPairs(matches: seq<(string, string)>) returns (pairs: OrderedMap<string>)
    ensures pairs == FromPairs(matches)
  {
    pairs := Empty();
    var i := 0;
    while i < |matches|
      invariant 0 <= i <= |matches|
      invariant pairs == FromPairs(matches[..i])
    {
      assert matches[..i + 1][..i] == matches[..i];
      var (key, val) := matches[i];
      pairs := pairs.Put(key, val);
      i := i + 1;
    }
    assert matches[..i] == matches;
  }

  /** The loop over the glob. */
  method ReadTranslations(files: seq<LangFile>) returns (translations: OrderedMap<OrderedMap<string>>)
    ensures translations == TranslationsOf(files)
  {
    translations := Empty();
    var i := 0;
    while i < |files|
      invariant 0 <= i <= |files|
      invariant translations == FromPairs(LangTables(files)[..i])
    {
      var lang := LangName(files[i].path);
      var pairs := ReadPairs(files[i].matches);
      assert LangTables(files)[..i + 1][..i] == LangTables(files)[..i];
      assert LangTables(files)[i].0 == lang && LangTables(files)[i].1 == pairs;
      translations := translations.Put(lang, pairs);
      i := i + 1;
    }
    assert LangTables(files)[..i] == LangTables(files);
  }

  /** Some file is of language `lang`. */
  ghost predicate HasLang(files: seq<LangFile>, lang: string)
  {
    exists i :: 0 <= i < |files| && LangName(files[i].path) == lang
  }

  /** `files[i]` is of language `lang`, and no later file is. */
  ghost predicate LastFileOf(files: seq<LangFile>, lang: string, i: nat)
  {
    i < |files| && LangName(files[i].path) == lang
    && forall l :: i < l < |files| ==> LangName(files[l].path) != lang
  }

  /** Every file yields its language; of two files of one language, the later one wins. */
  lemma {:induction false} TranslationsSpec(files: seq<LangFile>, lang: string)
    ensures TranslationsOf(files).Valid()
    ensures lang in TranslationsOf(files).entries <==> HasLang(files, lang)
    ensures lang in TranslationsOf(files).entries ==>
      exists i: nat :: LastFileOf(files, lang, i) && TranslationsOf(files).entries[lang] == FromPairs(files[i].matches)
  {
    var ts := LangTables(files);
    FromPairsSpec(ts, lang);
    LastValueSome(ts, lang);
    if lang in TranslationsOf(files).entries {
      FromPairsLast(ts, lang);
      var i: nat :| LastPairAt(ts, lang, i) && TranslationsOf(files).entries[lang] == ts[i].1;
      assert ts[i].1 == FromPairs(files[i].matches);
      forall l | i < l < |files| ensures LangName(files[l].path) != lang {
        assert ts[l].0 == LangName(files[l].path);
      }
      assert LastFileOf(files, lang, i);
    } else {
      forall i | 0 <= i < |files| ensures LangName(files[i].path) != lang {
        assert ts[i] == LangTable(files[i]);
      }
    }
  }

  /** Every table of the catalog is valid. */
  lemma {:induction false} TranslationsValid(files: seq<LangFile>)
    ensures TranslationsOf(files).Valid()
    ensures forall lang :: lang in TranslationsOf(files).entries ==> TranslationsOf(files).entries[lang].Valid()
  {
    TranslationsSpec(files, "");
    forall lang | lang in TranslationsOf(files).entries ensures TranslationsOf(files).entries[lang].Valid() {
      TranslationsSpec(files, lang);
      var i: nat :| LastFileOf(files, lang, i) && TranslationsOf(files).entries[lang] == FromPairs(files[i].matches);
      FromPairsSpec(files[i].matches, "");
    }
  }

  // ---------------------------------------------------------------------------------------
  // The key search `re.search(r"(\S+)\s*=", line)`

  /** `\s` of a `str` pattern: the characters for which `str.isspace()` holds. */
  const SpaceChars: set<char> := {
    '\t', '\n', '\U{B}', '\U{C}', '\r', '\U{1C}', '\U{1D}', '\U{1E}', '\U{1F}', ' ',
    '\U{85}', '\U{A0}', '\U{1680}',
    '\U{2000}', '\U{2001}', '\U{2002}', '\U{2003}', '\U{2004}', '\U{2005}', '\U{2006}',
    '\U{2007}', '\U{2008}', '\U{2009}', '\U{200A}',
    '\U{2028}', '\U{2029}', '\U{202F}', '\U{205F}', '\U{3000}'
  }

  predicate IsSpace(c: char)
  {
    c in SpaceChars
  }

  /** `line[p..k]` is a key the pattern can match: a non-empty run of non-space characters,
      then white space up to an `=` at `q`. */
  ghost predicate KeyMatch(line: string, p: nat, k: nat, q: nat)
  {
    p < k <= q < |line| && NoSpace(line, p, k, SpaceChars) && AllSpace(line, k, q, SpaceChars) && line[q] == '='
  }

  /** The largest `k` in `[lo, hi)` with `line[k] == '='`. */
  function LastEq(line: string, lo: nat, hi: nat): (r: Option<nat>)
    requires lo <= hi <= |line|
    ensures r.Some? ==> lo <= r.value < hi && line[r.value] == '='
    decreases hi
  {
    if hi == lo then None
    else if line[hi - 1] == '=' then Some(hi - 1)
    else LastEq(line, lo, hi - 1)
  }

  lemma {:induction false} LastEqCovers(line: string, lo: nat, hi: nat, k: nat)
    requires lo <= k < hi <= |line| && line[k] == '='
    ensures LastEq(line, lo, hi).Some? && k <= LastEq(line, lo, hi).value
    decreases hi
  {
    if line[hi - 1] != '=' {
      LastEqCovers(line, lo, hi - 1, k);
    }
  }

  /** The key end the engine reports when it tries the pattern at `p`: `\S+` first takes the
      whole run of non-space characters, then gives characters back until `\s*=` matches. */
  function KeyEndAt(line: string, p: nat): (r: Option<nat>)
    requires p <= |line|
    ensures r.Some? ==> p < r.value <= |line|
  {
    if p == |line| || IsSpace(line[p]) then None
    else
      var e := SkipNonSpace(line, p, SpaceChars);
      var q := SkipSpace(line, e, SpaceChars);
      if q < |line| && line[q] == '=' then Some(e)
      else LastEq(line, p + 1, e)
  }

  /** What the engine reports at `p` is a key match. */
  lemma {:induction false} KeyEndAtSound(line: string, p: nat)
    requires p <= |line| && KeyEndAt(line, p).Some?
    ensures var k := KeyEndAt(line, p).value; k < |line| && KeyMatch(line, p, k, SkipSpace(line, k, SpaceChars))
  {
    var k := KeyEndAt(line, p).value;
    var e := SkipNonSpace(line, p, SpaceChars);
    SkipNonSpaceSpec(line, p, SpaceChars);
    SkipSpaceSpec(line, k, SpaceChars);
    if k < e {
      assert line[k] == '=' && !IsSpace('=');
      assert SkipSpace(line, k, SpaceChars) == k;
    }
  }

  /** At `p`, the engine finds the longest key of any match starting there (`\S+` is greedy). */
  lemma {:induction false} KeyEndAtGreedy(line: string, p: nat, k: nat, q: nat)
    requires KeyMatch(line, p, k, q)
    ensures KeyEndAt(line, p).Some? && k <= KeyEndAt(line, p).value
  {
    assert !IsSpace(line[p]);
    var e := SkipNonSpace(line, p, SpaceChars);
    SkipNonSpaceOver(line, p, k, SpaceChars);
    SkipNonSpaceSpec(line, p, SpaceChars);
    assert !IsSpace('=');
    if k == e {
      SkipSpaceTo(line, k, q, SpaceChars);
    } else {
      assert !IsSpace(line[k]);
      assert q == k;
      var r := SkipSpace(line, e, SpaceChars);
      if !(r < |line| && line[r] == '=') {
        LastEqCovers(line, p + 1, e, k);
      }
    }
  }

  /** `re.search` from position `p` on: the start and key end of the first match. */
  function SearchFrom(line: string, p: nat): (r: Option<(nat, nat)>)
    requires p <= |line|
    ensures r.Some? ==> p <= r.value.0 < r.value.1 <= |line|
    decreases |line| - p
  {
    match KeyEndAt(line, p)
    case Some(k) => Some((p, k))
    case None => if p == |line| then None else SearchFrom(line, p + 1)
  }

  /** `m.group(1)` of `re.search`, or `None` when the line has no match. */
  function SearchKey(line: string): Option<string>
  {
    match SearchFrom(line, 0)
    case Some((p, k)) => Some(line[p..k])
    case None => None
  }

  lemma {:induction false} SearchFromSound(line: string, p: nat)
    requires p <= |line| && SearchFrom(line, p).Some?
    ensures var (a, k) := SearchFrom(line, p).value; k < |line| && KeyMatch(line, a, k, SkipSpace(line, k, SpaceChars))
    decreases |line| - p
  {
    if KeyEndAt(line, p).Some? {
      KeyEndAtSound(line, p);
    } else {
      SearchFromSound(line, p + 1);
    }
  }

  lemma {:induction false} SearchFromFirst(line: string, p: nat, a: nat, k: nat, q: nat)
    requires p <= a && KeyMatch(line, a, k, q)
    ensures SearchFrom(line, p).Some?
    ensures var (a', k') := SearchFrom(line, p).value; a' < a || (a' == a && k <= k')
    decreases a - p
  {
    if p == a {
      KeyEndAtGreedy(line, a, k, q);
    } else if KeyEndAt(line, p).None? {
      SearchFromFirst(line, p + 1, a, k, q);
    }
  }

  /** The key found is a key match, and it starts at the leftmost position where any match
      starts, with the longest key of the matches starting there; when there is no key, no
      match exists. */
  lemma {:induction false} SearchKeySpec(line: string, a: nat, k: nat, q: nat)
    ensures SearchFrom(line, 0).Some? ==>
      var (a', k') := SearchFrom(line, 0).value;
      KeyMatch(line, a', k', SkipSpace(line, k', SpaceChars)) && SearchKey(line) == Some(line[a'..k'])
    ensures KeyMatch(line, a, k, q) ==> (SearchFrom(line, 0).Some? &&
      var (a', k') := SearchFrom(line, 0).value;
      a' < a || (a' == a && k <= k'))
  {
    if SearchFrom(line, 0).Some? {
      SearchFromSound(line, 0);
    }
    if KeyMatch(line, a, k, q) {
      SearchFromFirst(line, 0, a, k, q);
    }
  }

  /** A line written as `key = ...` is found again under the same key, whatever the rest of
      the line holds: the rewritten files keep their keys. */
  lemma {:induction false} SearchKeyLeading(key: string, rest: string)
    requires key != [] && NoSpace(key, 0, |key|, SpaceChars)
    ensures SearchKey(key + " =" + rest) == Some(key)
  {
    var line := key + " =" + rest;
    assert line[|key|] == ' ' && line[|key| + 1] == '=';
    assert NoSpace(line, 0, |key|, SpaceChars) by {
      forall i | 0 <= i < |key| ensures !IsSpace(line[i]) {
        assert line[i] == key[i];
      }
    }
    assert KeyMatch(line, 0, |key|, |key| + 1);
    SearchKeySpec(line, 0, |key|, |key| + 1);
    var (a, k) := SearchFrom(line, 0).value;
    assert a == 0 && |key| <= k;
    SkipNonSpaceSpec(line, 0, SpaceChars);
    assert k <= |key|;
    assert line[..|key|] == key;
  }

  // ---------------------------------------------------------------------------------------
  // Rewriting one language in the base layout

  /** `"]]" in line`. */
  predicate HasClose(line: string)
  {
    exists i :: 0 <= i < |line| - 1 && line[i] == ']' && line[i + 1] == ']'
  }

  /** The line written for a key the language has. */
  function KeyLine(key: string, value: string): string
  {
    key + " = [[" + value + "]]\n"
  }

  /** The line written for a key the language lacks: the base value, marked. */
  function UntranslatedLine(key: string, value: string): string
  {
    key + " = [[" + value + "]] # Needs translation\n"
  }

  /** What one base line does: the next `ignore` state and the text written (at most one
      write), or the key of a failed dictionary lookup. */
  datatype Step = Next(ignore: bool, writes: seq<string>) | KeyError(key: string)

  /** The base pairs, `translations[BASE_LANG]`, when the base language was read. */
  function BaseOf(translations: OrderedMap<OrderedMap<string>>): Option<OrderedMap<string>>
  {
    if BaseLang in translations.entries then Some(translations.entries[BaseLang]) else None
  }

  /** One turn of the loop over the base lines, with `own` the language's pairs and `base`
      the base pairs. */
  function StepLine(ignore: bool, line: string, own: OrderedMap<string>, base: Option<OrderedMap<string>>): (r: Step)
    ensures r.Next? ==> |r.writes| <= 1
  {
    if ignore then Next(!HasClose(line), [])
    else match SearchKey(line)
      case None => Next(false, [line + "\n"])
      case Some(key) =>
        if key in own.entries then Next(!HasClose(line), [KeyLine(key, own.entries[key])])
        else if base.None? then KeyError(BaseLang)
        else if key !in base.value.entries then KeyError(key)
        else Next(!HasClose(line), [UntranslatedLine(key, base.value.entries[key])])
  }

  /** The state of the loop: the `ignore` flag, what was written so far, and the key of the
      lookup that failed, if one did. */
  datatype Pass = Pass(ignore: bool, writes: seq<string>, error: Option<string>)

  /** The loop over `lines`, stopping at the first failed lookup. */
  function RewritePass(lines: seq<string>, own: OrderedMap<string>, base: Option<OrderedMap<string>>): (r: Pass)
    ensures |r.writes| <= |lines|
  {
    if lines == [] then Pass(false, [], None)
    else
      var prev := RewritePass(lines[..|lines| - 1], own, base);
      if prev.error.Some? then prev
      else match StepLine(prev.ignore, lines[|lines| - 1], own, base)
        case KeyError(key) => Pass(prev.ignore, prev.writes, Some(key))
        case Next(ignore, ws) => Pass(ignore, prev.writes + ws, None)
  }

  /** A failed lookup ends the pass: nothing after it is written. */
  lemma {:induction false} RewriteStops(lines: seq<string>, own: OrderedMap<string>, base: Option<OrderedMap<string>>, n: nat)
    requires n <= |lines| && RewritePass(lines[..n], own, base).error.Some?
    ensures RewritePass(lines, own, base) == RewritePass(lines[..n], own, base)
    decreases |lines| - n
  {
    if n < |lines| {
      assert lines[..n + 1][..n] == lines[..n];
      RewriteStops(lines, own, base, n + 1);
    } else {
      assert lines[..n] == lines;
    }
  }

  /** The rewrite of one language file. */
  method RewriteLanguage(baseLines: seq<string>, own: OrderedMap<string>, base: Option<OrderedMap<string>>)
    returns (written: seq<string>, error: Option<string>)
    ensures written == RewritePass(baseLines, own, base).writes
    ensures error == RewritePass(baseLines, own, base).error
  {
    written := [];
    error := None;
    var ignore := false;
    var i := 0;
    while i < |baseLines|
      invariant 0 <= i <= |baseLines|
      invariant RewritePass(baseLines[..i], own, base) == Pass(ignore, written, None)
    {
      var line := baseLines[i];
      assert baseLines[..i + 1][..i] == baseLines[..i];
      if ignore {
        if HasClose(line) {
          ignore := false;
        }
      } else {
        var m := SearchKey(line);
        if m.None? {
          written := written + [line + "\n"];
        } else {
          if !HasClose(line) {
            ignore := true;
          }
          var key := m.value;
          if key in own.entries {
            written := written + [KeyLine(key, own.entries[key])];
          } else if base.None? {
            error := Some(BaseLang);
            RewriteStops(baseLines, own, base, i + 1);
            return;
          } else if key !in base.value.entries {
            error := Some(key);
            RewriteStops(baseLines, own, base, i + 1);
            return;
          } else {
            written := written + [UntranslatedLine(key, base.value.entries[key])];
          }
        }
      }
      i := i + 1;
    }
    assert baseLines[..i] == baseLines;
  }

  /** After a key line without `]]`, the following lines are dropped up to and including the
      first line holding `]]`, and the lines after it are read again. */
  lemma {:induction false} IgnoredUntilClose(lines: seq<string>, own: OrderedMap<string>, base: Option<OrderedMap<string>>,
                                             ws: seq<string>, i: nat, j: nat)
    requires i <= j < |lines|
    requires RewritePass(lines[..i], own, base) == Pass(true, ws, None)
    requires forall l :: i <= l < j ==> !HasClose(lines[l])
    requires HasClose(lines[j])
    ensures RewritePass(lines[..j + 1], own, base) == Pass(false, ws, None)
  {
    IgnoredWithoutClose(lines, own, base, ws, i, j);
    assert lines[..j + 1][..j] == lines[..j];
  }

  lemma {:induction false} IgnoredWithoutClose(lines: seq<string>, own: OrderedMap<string>, base: Option<OrderedMap<string>>,
                                               ws: seq<string>, i: nat, j: nat)
    requires i <= j <= |lines|
    requires RewritePass(lines[..i], own, base) == Pass(true, ws, None)
    requires forall l :: i <= l < j ==> !HasClose(lines[l])
    ensures RewritePass(lines[..j], own, base) == Pass(true, ws, None)
    decreases j - i
  {
    if i < j {
      IgnoredWithoutClose(lines, own, base, ws, i, j - 1);
      assert lines[..j][..j - 1] == lines[..j - 1];
    }
  }

  /** A key line starts ignoring exactly when it holds no `]]`. */
  lemma {:induction false} KeyLineStep(line: string, key: string, own: OrderedMap<string>, base: Option<OrderedMap<string>>)
    requires SearchKey(line) == Some(key)
    ensures StepLine(false, line, own, base).Next? <==>
      key in own.entries || (base.Some? && key in base.value.entries)
    ensures StepLine(false, line, own, base).KeyError? ==>
      StepLine(false, line, own, base).key == (if base.None? then BaseLang else key)
    ensures StepLine(false, line, own, base).Next? ==>
      StepLine(false, line, own, base) == Next(!HasClose(line), [
        if key in own.entries then KeyLine(key, own.entries[key])
        else UntranslatedLine(key, base.value.entries[key])])
  {
  }

  /** A base layout whose every key line closes its value on the same line is rewritten line
      for line, in the base order: write `l` is what base line `l` makes on its own. */
  lemma {:induction false} RewriteLineForLine(lines: seq<string>, own: OrderedMap<string>, base: Option<OrderedMap<string>>)
    requires forall l :: 0 <= l < |lines| && SearchKey(lines[l]).Some? ==> HasClose(lines[l])
    requires RewritePass(lines, own, base).error.None?
    ensures !RewritePass(lines, own, base).ignore
    ensures |RewritePass(lines, own, base).writes| == |lines|
    ensures forall l :: 0 <= l < |lines| ==>
      StepLine(false, lines[l], own, base) == Next(false, [RewritePass(lines, own, base).writes[l]])
  {
    if lines != [] {
      var init := lines[..|lines| - 1];
      var prev := RewritePass(init, own, base);
      assert prev.error.None?;
      RewriteLineForLine(init, own, base);
      var last := lines[|lines| - 1];
      var r := RewritePass(lines, own, base);
      assert r.writes == prev.writes + StepLine(false, last, own, base).writes;
      forall l | 0 <= l < |lines|
        ensures StepLine(false, lines[l], own, base) == Next(false, [r.writes[l]])
      {
        if l < |init| {
          assert lines[l] == init[l];
        }
      }
    }
  }

  // ---------------------------------------------------------------------------------------
  // Rewriting every language

  /** The files written so far, as `(language, writes)`, and the key of the failed lookup
      that ended the script, if one did. */
  datatype Regen = Regen(outputs: seq<(string, seq<string>)>, error: Option<string>)

  /** The languages of `langs` other than the base, in order. */
  function NonBase(langs: seq<string>): (r: seq<string>)
    ensures |r| <= |langs|
    ensures BaseLang !in r
  {
    if langs == [] then []
    else
      var l := langs[|langs| - 1];
      NonBase(langs[..|langs| - 1]) + (if l == BaseLang then [] else [l])
  }

  function OutputLangs(outputs: seq<(string, seq<string>)>): (r: seq<string>)
    ensures |r| == |outputs|
  {
    seq(|outputs|, i requires 0 <= i < |outputs| => outputs[i].0)
  }

  /** The loop over the languages `langs` of `translations`. */
  function RegenLangs(langs: seq<string>, translations: OrderedMap<OrderedMap<string>>, baseLines: seq<string>): Regen
    requires forall l :: l in langs ==> l in translations.entries
  {
    if langs == [] then Regen([], None)
    else
      var init := langs[..|langs| - 1];
      var lang := langs[|langs| - 1];
      assert forall l :: l in init ==> l in langs;
      var prev := RegenLangs(init, translations, baseLines);
      if prev.error.Some? || lang == BaseLang then prev
      else
        var pass := RewritePass(baseLines, translations.entries[lang], BaseOf(translations));
        Regen(prev.outputs + [(lang, pass.writes)], pass.error)
  }

  /** Every file written is of a language of the catalog other than the base, and holds the
      writes of that language's pass. */
  ghost predicate FaithfulOutputs(outputs: seq<(string, seq<string>)>, translations: OrderedMap<OrderedMap<string>>, baseLines: seq<string>)
  {
    forall j :: 0 <= j < |outputs| ==>
      && outputs[j].0 != BaseLang
      && outputs[j].0 in translations.entries
      && outputs[j].1 == RewritePass(baseLines, translations.entries[outputs[j].0], BaseOf(translations)).writes
  }

  lemma {:induction false} RegenOutputs(langs: seq<string>, translations: OrderedMap<OrderedMap<string>>, baseLines: seq<string>)
    requires forall l :: l in langs ==> l in translations.entries
    ensures FaithfulOutputs(RegenLangs(langs, translations, baseLines).outputs, translations, baseLines)
  {
    if langs != [] {
      var init := langs[..|langs| - 1];
      assert forall l :: l in init ==> l in langs;
      RegenOutputs(init, translations, baseLines);
      var prev := RegenLangs(init, translations, baseLines);
      var lang := langs[|langs| - 1];
      if prev.error.None? && lang != BaseLang {
        assert lang in langs;
        var out := (lang, RewritePass(baseLines, translations.entries[lang], BaseOf(translations)).writes);
        var r := RegenLangs(langs, translations, baseLines);
        assert r.outputs == prev.outputs + [out];
        forall j | 0 <= j < |r.outputs|
          ensures r.outputs[j].0 != BaseLang && r.outputs[j].0 in translations.entries
          ensures r.outputs[j].1 == RewritePass(baseLines, translations.entries[r.outputs[j].0], BaseOf(translations)).writes
        {
          if j < |prev.outputs| {
            assert r.outputs[j] == prev.outputs[j];
          } else {
            assert r.outputs[j] == out;
          }
        }
      }
    }
  }

  /** Without a failed lookup, every language other than the base is written, once, in
      catalog order. */
  lemma {:induction false} RegenComplete(langs: seq<string>, translations: OrderedMap<OrderedMap<string>>, baseLines: seq<string>)
    requires forall l :: l in langs ==> l in translations.entries
    requires RegenLangs(langs, translations, baseLines).error.None?
    ensures OutputLangs(RegenLangs(langs, translations, baseLines).outputs) == NonBase(langs)
  {
    if langs != [] {
      var init := langs[..|langs| - 1];
      assert forall l :: l in init ==> l in langs;
      var prev := RegenLangs(init, translations, baseLines);
      RegenComplete(init, translations, baseLines);
      var lang := langs[|langs| - 1];
      if lang != BaseLang {
        var r := RegenLangs(langs, translations, baseLines);
        assert r.outputs == prev.outputs + [(lang, RewritePass(baseLines, translations.entries[lang], BaseOf(translations)).writes)];
        assert OutputLangs(r.outputs) == OutputLangs(prev.outputs) + [lang];
      }
    }
  }

  /** A failed lookup ends the script after the partial file of the language it occurred in. */
  lemma {:induction false} RegenFailure(langs: seq<string>, translations: OrderedMap<OrderedMap<string>>, baseLines: seq<string>)
    requires forall l :: l in langs ==> l in translations.entries
    requires RegenLangs(langs, translations, baseLines).error.Some?
    ensures var r := RegenLangs(langs, translations, baseLines);
      && |r.outputs| > 0
      && r.outputs[|r.outputs| - 1].0 in translations.entries
      && r.error == RewritePass(baseLines, translations.entries[r.outputs[|r.outputs| - 1].0], BaseOf(translations)).error
  {
    var init := langs[..|langs| - 1];
    assert forall l :: l in init ==> l in langs;
    var prev := RegenLangs(init, translations, baseLines);
    if prev.error.Some? {
      RegenFailure(init, translations, baseLines);
    }
  }

  /** The loop over `translations`. */
  method Regenerate(translations: OrderedMap<OrderedMap<string>>, baseLines: seq<string>)
    returns (outputs: seq<(string, seq<string>)>, error: Option<string>)
    requires translations.Valid()
    ensures Regen(outputs, error) == RegenLangs(translations.keys, translations, baseLines)
  {
    outputs := [];
    error := None;
    var base := BaseOf(translations);
    var i := 0;
    while i < |translations.keys|
      invariant 0 <= i <= |translations.keys|
      invariant RegenLangs(translations.keys[..i], translations, baseLines) == Regen(outputs, None)
    {
      var lang := translations.keys[i];
      var prefix := translations.keys[..i + 1];
      assert prefix[..i] == translations.keys[..i] && prefix[i] == lang;
      if lang != BaseLang {
        var written, err := RewriteLanguage(baseLines, translations.entries[lang], base);
        outputs := outputs + [(lang, written)];
        if err.Some? {
          error := err;
          RegenStops(translations.keys, translations, baseLines, i + 1);
          return;
        }
      }
      i := i + 1;
    }
    assert translations.keys[..i] == translations.keys;
  }

  /** A failed lookup ends the script: no later language is rewritten. */
  lemma {:induction false} RegenStops(langs: seq<string>, translations: OrderedMap<OrderedMap<string>>, baseLines: seq<string>, n: nat)
    requires forall l :: l in langs ==> l in translations.entries
    requires n <= |langs|
    requires RegenLangs(langs[..n], translations, baseLines).error.Some?
    ensures RegenLangs(langs, translations, baseLines) == RegenLangs(langs[..n], translations, baseLines)
    decreases |langs| - n
  {
    if n < |langs| {
      assert langs[..n + 1][..n] == langs[..n];
      RegenStops(langs, translations, baseLines, n + 1);
    } else {
      assert langs[..n] == langs;
    }
  }

  /** The whole script: read every file, then rewrite every language but the base in the
      layout of the base lines. */
  function RegenTranslations(files: seq<LangFile>, baseLines: seq<string>): Regen
  {
    TranslationsValid(files);
    var translations := TranslationsOf(files);
    RegenLangs(translations.keys, translations, baseLines)
  }

  method RegenAll(files: seq<LangFile>, baseLines: seq<string>)
    returns (outputs: seq<(string, seq<string>)>, error: Option<string>)
    ensures Regen(outputs, error) == RegenTranslations(files, baseLines)
  {
    var translations := ReadTranslations(files);
    TranslationsValid(files);
    outputs, error := Regenerate(translations, baseLines);
  }

  /** One more base line, when no lookup has failed so far. */
  lemma {:induction false} RewriteSnoc(lines: seq<string>, line: string, own: OrderedMap<string>, base: Option<OrderedMap<string>>,
                    ignore: bool, ws: seq<string>, ignore': bool, ws': seq<string>)
    requires RewritePass(lines, own, base) == Pass(ignore, ws, None)
    requires StepLine(ignore, line, own, base) == Next(ignore', ws')
    ensures RewritePass(lines + [line], own, base) == Pass(ignore', ws + ws', None)
  {
    assert (lines + [line])[..|lines|] == lines;
  }

  /** The base lines of the scenario below, each on its own. */
  lemma {:induction false} ScenarioComment(own: OrderedMap<string>, base: OrderedMap<string>)
    ensures StepLine(false, "#", own, Some(base)) == Next(false, ["#" + "\n"])
  {
    assert !IsSpace('#');
    assert KeyEndAt("#", 0) == None by {
      assert SkipNonSpace("#", 0, SpaceChars) == 1;
      assert LastEq("#", 1, 1) == None;
    }
    assert SearchFrom("#", 1) == None;
  }

  lemma {:induction false} ScenarioOwnKey(own: OrderedMap<string>, base: OrderedMap<string>)
    requires "a" in own.entries
    ensures StepLine(false, "a" + " =" + " [[x]]", own, Some(base)) == Next(false, [KeyLine("a", own.entries["a"])])
  {
    var l1 := "a" + " =" + " [[x]]";
    assert !IsSpace('a');
    SearchKeyLeading("a", " [[x]]");
    assert l1[|l1| - 2] == ']' && l1[|l1| - 1] == ']';
  }

  lemma {:induction false} ScenarioBaseKey(own: OrderedMap<string>, base: OrderedMap<string>)
    requires "b" !in own.entries && "b" in base.entries
    ensures StepLine(false, "b" + " =" + " [[y", own, Some(base)) == Next(true, [UntranslatedLine("b", base.entries["b"])])
  {
    var l2 := "b" + " =" + " [[y";
    assert !IsSpace('b');
    SearchKeyLeading("b", " [[y");
    assert l2 == ['b', ' ', '=', ' ', '[', '[', 'y'];
  }

  lemma {:induction false} ScenarioClose(own: OrderedMap<string>, base: OrderedMap<string>)
    ensures StepLine(true, "z]]", own, Some(base)) == Next(false, [])
  {
    var l3 := "z]]";
    assert l3[1] == ']' && l3[2] == ']';
  }

  /** A base layout with a comment, a one-line value and a two-line value, rewritten for a
      language that translates the first key but not the second: the comment is copied, the
      first key takes the language's value, the second the base value marked, and the
      continuation line of the two-line value is dropped. */
  lemma {:induction false} RewriteScenario(own: OrderedMap<string>, base: OrderedMap<string>)
    requires "a" in own.entries && "b" !in own.entries && "b" in base.entries
    ensures
      var lines := ["#", "a" + " =" + " [[x]]", "b" + " =" + " [[y", "z]]"];
      RewritePass(lines, own, Some(base))
        == Pass(false, ["#" + "\n", KeyLine("a", own.entries["a"]), UntranslatedLine("b", base.entries["b"])], None)
  {
    var l1, l2, l3 := "a" + " =" + " [[x]]", "b" + " =" + " [[y", "z]]";
    var w0, w1, w2 := "#" + "\n", KeyLine("a", own.entries["a"]), UntranslatedLine("b", base.entries["b"]);
    ScenarioComment(own, base);
    ScenarioOwnKey(own, base);
    ScenarioBaseKey(own, base);
    ScenarioClose(own, base);
    RewriteSnoc([], "#", own, Some(base), false, [], false, [w0]);
    assert [] + ["#"] == ["#"] && [] + [w0] == [w0];
    RewriteSnoc(["#"], l1, own, Some(base), false, [w0], false, [w1]);
    assert ["#"] + [l1] == ["#", l1] && [w0] + [w1] == [w0, w1];
    RewriteSnoc(["#", l1], l2, own, Some(base), false, [w0, w1], true, [w2]);
    assert ["#", l1] + [l2] == ["#", l1, l2] && [w0, w1] + [w2] == [w0, w1, w2];
    RewriteSnoc(["#", l1, l2], l3, own, Some(base), true, [w0, w1, w2], false, []);
    assert ["#", l1, l2] + [l3] == ["#", l1, l2, l3] && [w0, w1, w2] + [] == [w0, w1, w2];
  }
}
