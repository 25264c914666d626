/** The legacy text-block compiler: every file of the asset directory holds `key = [[value]]`
    blocks; the blocks are extracted with a multi-line regular expression, the values trimmed
    and lightly escaped, and all languages rendered as one Lua module. */
module LegacyTranslations {
  import opened Common
  import opened OrderedMaps
  import LuaTranslations

  // ---------------------------------------------------------------------------------------
  // Character classes of JavaScript regular expressions

  /** `\s`: the WhiteSpace and LineTerminator characters of ECMAScript (also what `trim` removes). */
  const SpaceChars: set<char> := {
    '\t', '\n', '\U{B}', '\U{C}', '\r', ' ', '\U{A0}', '\U{1680}',
    '\U{2000}', '\U{2001}', '\U{2002}', '\U{2003}', '\U{2004}', '\U{2005}', '\U{2006}',
    '\U{2007}', '\U{2008}', '\U{2009}', '\U{200A}',
    '\U{2028}', '\U{2029}', '\U{202F}', '\U{205F}', '\U{3000}', '\U{FEFF}'
  }

  predicate IsSpace(c: char)
  {
    c in SpaceChars
  }

  /** The line terminators after which `^` matches in multi-line mode. */
  predicate IsLineTerminator(c: char)
  {
    c == '\n' || c == '\r' || c == '\U{2028}' || c == '\U{2029}'
  }

  predicate LineStart(c: string, p: nat)
    requires p <= |c|
  {
    p == 0 || IsLineTerminator(c[p - 1])
  }

  predicate ClosesAt(c: string, j: nat)
  {
    j + 1 < |c| && c[j] == ']' && c[j + 1] == ']'
  }

  /** `[\S\s]*?\]\]` from `i`: the first `]]` at or after `i`. */
  function FindClose(c: string, i: nat): (r: Option<nat>)
    requires i <= |c|
    ensures r.Some? ==> i <= r.value && r.value + 2 <= |c|
    decreases |c| - i
  {
    if i + 1 >= |c| then None
    else if ClosesAt(c, i) then Some(i)
    else FindClose(c, i + 1)
  }

  /** `FindClose` finds the first `]]` at or after `i`, if there is one. */
  lemma {:induction false} FindCloseSpec(c: string, i: nat)
    requires i <= |c|
    ensures var r := FindClose(c, i);
      && (r.Some? ==> ClosesAt(c, r.value) && forall j :: i <= j < r.value ==> !ClosesAt(c, j))
      && (r.None? ==> forall j :: i <= j < |c| ==> !ClosesAt(c, j))
    decreases |c| - i
  {
    if i + 1 < |c| && !ClosesAt(c, i) {
      FindCloseSpec(c, i + 1);
    }
  }

  // ---------------------------------------------------------------------------------------
  // The pattern /^\s*(\S+)\s*=\s*\[\[([\S\s]*?)\]\]/gm

  /** The positions of one match: it starts at `start`; the key (group 1) is
      `c[keyStart..keyEnd]`; `eq` is the `=`; the value (group 2) is `c[valueStart..valueEnd]`,
      right after `[[` and right before `]]`. */
  datatype Match = Match(start: nat, keyStart: nat, keyEnd: nat, eq: nat, valueStart: nat, valueEnd: nat)
  {
    function End(): nat { valueEnd + 2 }

    predicate Within(n: nat)
    {
      start <= keyStart < keyEnd <= eq < valueStart <= valueEnd && valueEnd + 2 <= n
    }
  }

  /** What the pattern accepts, with the value taken lazily (it holds no `]]`): at a line start,
      white space, a key of other characters, white space, `=`, white space, `[[`, the value and
      `]]`. */
  ghost predicate IsMatch(c: string, m: Match)
  {
    && m.Within(|c|) && m.eq + 3 <= m.valueStart
    && LineStart(c, m.start)
    && AllSpace(c, m.start, m.keyStart, SpaceChars) && NoSpace(c, m.keyStart, m.keyEnd, SpaceChars)
    && AllSpace(c, m.keyEnd, m.eq, SpaceChars) && c[m.eq] == '='
    && AllSpace(c, m.eq + 1, m.valueStart - 2, SpaceChars) && c[m.valueStart - 2] == '[' && c[m.valueStart - 1] == '['
    && ClosesAt(c, m.valueEnd)
    && forall j :: m.valueStart <= j < m.valueEnd ==> !ClosesAt(c, j)
  }

  /** The rest of the pattern once the key is fixed to `c[k0..k1]`. */
  function MatchRest(c: string, p: nat, k0: nat, k1: nat): (r: Option<Match>)
    requires p <= k0 < k1 <= |c|
    ensures r.Some? ==> r.value.start == p && r.value.keyStart == k0 && r.value.keyEnd == k1 && r.value.Within(|c|)
  {
    var eq := SkipSpace(c, k1, SpaceChars);
    if eq < |c| && c[eq] == '=' then
      var b := SkipSpace(c, eq + 1, SpaceChars);
      if b + 1 < |c| && c[b] == '[' && c[b + 1] == '[' then
        match FindClose(c, b + 2)
        case Some(ve) => Some(Match(p, k0, k1, eq, b + 2, ve))
        case None => None
      else None
    else None
  }

  /** The greedy key `\S+` backtracks: the longest key end in `(k0, k1]` for which the rest of
      the pattern matches. */
  function LongestKey(c: string, p: nat, k0: nat, k1: nat): (r: Option<Match>)
    requires p <= k0 <= k1 <= |c|
    ensures r.Some? ==> r.value.start == p && r.value.keyStart == k0 && k0 < r.value.keyEnd <= k1
    ensures r.Some? ==> r == MatchRest(c, p, k0, r.value.keyEnd)
    decreases k1
  {
    if k1 == k0 then None
    else match MatchRest(c, p, k0, k1)
      case Some(m) => Some(m)
      case None => LongestKey(c, p, k0, k1 - 1)
  }

  /** The match the engine reports when it tries the pattern at position `p`. */
  function MatchAt(c: string, p: nat): (r: Option<Match>)
    requires p <= |c|
    ensures r.Some? ==> r.value.start == p && r.value.Within(|c|)
  {
    if !LineStart(c, p) then None
    else
      var k0 := SkipSpace(c, p, SpaceChars);
      LongestKey(c, p, k0, SkipNonSpace(c, k0, SpaceChars))
  }

  /** `REGX_TL.exec(content)` with `lastIndex == from`: the match at the first position at or
      after `from` where the pattern matches. */
  function Exec(c: string, from: nat): (r: Option<Match>)
    requires from <= |c|
    ensures r.Some? ==> from <= r.value.start && r.value.Within(|c|)
    decreases |c| - from
  {
    match MatchAt(c, from)
    case Some(m) => Some(m)
    case None => if from == |c| then None else Exec(c, from + 1)
  }

  /** Once the key is fixed, the rest of the pattern has only one way to match. */
  lemma {:induction false} MatchRestOf(c: string, m: Match)
    requires IsMatch(c, m)
    ensures MatchRest(c, m.start, m.keyStart, m.keyEnd) == Some(m)
  {
    SkipSpaceTo(c, m.keyEnd, m.eq, SpaceChars);
    SkipSpaceTo(c, m.eq + 1, m.valueStart - 2, SpaceChars);
    FindCloseSpec(c, m.valueStart);
    var r := FindClose(c, m.valueStart);
    assert r == Some(m.valueEnd);
  }

  /** What `MatchRest` reports is a match of the rest of the pattern. */
  lemma {:induction false} MatchRestSound(c: string, p: nat, k0: nat, k1: nat)
    requires p <= k0 < k1 <= |c|
    requires MatchRest(c, p, k0, k1).Some?
    ensures var m := MatchRest(c, p, k0, k1).value;
      && m.eq + 3 <= m.valueStart
      && AllSpace(c, m.keyEnd, m.eq, SpaceChars) && c[m.eq] == '='
      && AllSpace(c, m.eq + 1, m.valueStart - 2, SpaceChars) && c[m.valueStart - 2] == '[' && c[m.valueStart - 1] == '['
      && ClosesAt(c, m.valueEnd)
      && forall j :: m.valueStart <= j < m.valueEnd ==> !ClosesAt(c, j)
  {
    var eq := SkipSpace(c, k1, SpaceChars);
    SkipSpaceSpec(c, k1, SpaceChars);
    SkipSpaceSpec(c, eq + 1, SpaceChars);
    FindCloseSpec(c, SkipSpace(c, eq + 1, SpaceChars) + 2);
  }

  lemma {:induction false} LongestKeyCovers(c: string, p: nat, k0: nat, k1: nat, k: nat)
    requires p <= k0 < k <= k1 <= |c|
    requires MatchRest(c, p, k0, k).Some?
    ensures LongestKey(c, p, k0, k1).Some? && k <= LongestKey(c, p, k0, k1).value.keyEnd
    decreases k1
  {
    if k < k1 && MatchRest(c, p, k0, k1).None? {
      LongestKeyCovers(c, p, k0, k1 - 1, k);
    }
  }

  /** What the engine reports at a position is a match of the pattern. */
  lemma {:induction false} MatchAtSound(c: string, p: nat)
    requires p <= |c|
    ensures MatchAt(c, p).Some? ==> IsMatch(c, MatchAt(c, p).value)
  {
    if MatchAt(c, p).Some? {
      var m := MatchAt(c, p).value;
      assert m == MatchRest(c, p, m.keyStart, m.keyEnd).value;
      MatchRestSound(c, p, m.keyStart, m.keyEnd);
      MatchAtKey(c, p);
    }
  }

  /** The key part of a reported match: indentation, then a run of non-space characters. */
  lemma {:induction false} MatchAtKey(c: string, p: nat)
    requires p <= |c| && MatchAt(c, p).Some?
    ensures var m := MatchAt(c, p).value;
      && LineStart(c, p) && m.keyStart == SkipSpace(c, p, SpaceChars)
      && AllSpace(c, p, m.keyStart, SpaceChars) && NoSpace(c, m.keyStart, m.keyEnd, SpaceChars)
  {
    var m := MatchAt(c, p).value;
    var k0 := SkipSpace(c, p, SpaceChars);
    var k1 := SkipNonSpace(c, k0, SpaceChars);
    SkipSpaceSpec(c, p, SpaceChars);
    SkipNonSpaceSpec(c, k0, SpaceChars);
    assert m.keyEnd <= k1;
    assert NoSpace(c, m.keyStart, m.keyEnd, SpaceChars) by {
      forall k | m.keyStart <= k < m.keyEnd ensures !IsSpace(c[k]) {
        assert k0 <= k < k1;
      }
    }
  }

  /** The engine finds a match at every position where the pattern can match, and of those it
      reports the one with the longest key (`\S+` is greedy). */
  lemma {:induction false} MatchAtGreedy(c: string, m: Match)
    requires IsMatch(c, m)
    ensures MatchAt(c, m.start).Some? && m.keyEnd <= MatchAt(c, m.start).value.keyEnd
  {
    SkipSpaceTo(c, m.start, m.keyStart, SpaceChars);
    SkipNonSpaceOver(c, m.keyStart, m.keyEnd, SpaceChars);
    MatchRestOf(c, m);
    LongestKeyCovers(c, m.start, m.keyStart, SkipNonSpace(c, m.keyStart, SpaceChars), m.keyEnd);
  }

  /** `exec` reports what the engine reports at the position where it stops. */
  lemma {:induction false} ExecAt(c: string, from: nat)
    requires from <= |c|
    ensures Exec(c, from).Some? ==> Exec(c, from) == MatchAt(c, Exec(c, from).value.start)
    decreases |c| - from
  {
    if MatchAt(c, from).None? && from < |c| {
      ExecAt(c, from + 1);
    }
  }

  /** `exec` reports the leftmost match at or after `lastIndex`, or `null` when there is none. */
  lemma {:induction false} ExecLeftmost(c: string, from: nat, m: Match)
    requires from <= |c|
    requires IsMatch(c, m) && from <= m.start
    ensures Exec(c, from).Some? && Exec(c, from).value.start <= m.start
    decreases |c| - from
  {
    if from < m.start && MatchAt(c, from).None? {
      ExecLeftmost(c, from + 1, m);
    } else if from == m.start {
      MatchAtGreedy(c, m);
    }
  }

  lemma {:induction false} ExecSound(c: string, from: nat)
    requires from <= |c|
    ensures Exec(c, from).Some? ==> IsMatch(c, Exec(c, from).value)
  {
    if Exec(c, from).Some? {
      ExecAt(c, from);
      MatchAtSound(c, Exec(c, from).value.start);
    }
  }

  /** The successive results of `while (m = REGX_TL.exec(content))` from `lastIndex == from`:
      each search resumes where the previous match ended, until one finds nothing. */
  function Matches(c: string, from: nat): (r: seq<Match>)
    requires from <= |c|
    ensures forall i :: 0 <= i < |r| ==> from <= r[i].start && r[i].Within(|c|)
    decreases |c| - from
  {
    match Exec(c, from)
    case None => []
    case Some(m) => [m] + Matches(c, m.End())
  }

  lemma {:induction false} MatchesNext(c: string, from: nat)
    requires from <= |c|
    ensures Exec(c, from).None? ==> Matches(c, from) == []
    ensures Exec(c, from).Some? ==> Matches(c, from) == [Exec(c, from).value] + Matches(c, Exec(c, from).value.End())
  {
  }

  lemma {:induction false} ScanStep(c: string, from: nat, done: seq<Match>)
    requires from <= |c| && Exec(c, from).Some?
    requires done + Matches(c, from) == Matches(c, 0)
    ensures (done + [Exec(c, from).value]) + Matches(c, Exec(c, from).value.End()) == Matches(c, 0)
  {
    MatchesNext(c, from);
    var m := Exec(c, from).value;
    assert (done + [m]) + Matches(c, m.End()) == done + ([m] + Matches(c, m.End()));
  }

  /** The matches are the leftmost matches of the pattern, in order and without overlap: the
      first is the leftmost at or after `from`, each next one the leftmost after the end of the
      previous one, and after the last there is none. */
  lemma {:induction false} MatchesSpec(c: string, from: nat, i: nat)
    requires from <= |c| && i <= |Matches(c, from)|
    ensures var ms := Matches(c, from);
      var after := if i == 0 then from else ms[i - 1].End();
      && after <= |c|
      && (i < |ms| ==> Exec(c, after) == Some(ms[i]) && IsMatch(c, ms[i]))
      && (i == |ms| ==> Exec(c, after).None?)
    decreases |c| - from
  {
    var ms := Matches(c, from);
    if i == 0 {
      ExecSound(c, from);
    } else {
      var m := Exec(c, from).value;
      MatchesSpec(c, m.End(), i - 1);
    }
  }

  // ---------------------------------------------------------------------------------------
  // Values: `m[2].trim().replace('\n', '\\n').replace('"', '\\"')`

  /** The text without its leading white space. */
  function TrimStart(s: string): (r: string)
    ensures |r| <= |s|
  {
    if s != [] && IsSpace(s[0]) then TrimStart(s[1..]) else s
  }

  lemma {:induction false} TrimStartSpec(s: string)
    ensures var r := TrimStart(s);
      && r == s[|s| - |r|..]
      && (r == [] || !IsSpace(r[0]))
      && forall k :: 0 <= k < |s| - |r| ==> IsSpace(s[k])
  {
    if s != [] && IsSpace(s[0]) {
      TrimStartSpec(s[1..]);
    }
  }

  /** The text without its trailing white space. */
  function TrimEnd(s: string): (r: string)
    ensures |r| <= |s|
  {
    if s != [] && IsSpace(s[|s| - 1]) then TrimEnd(s[..|s| - 1]) else s
  }

  lemma {:induction false} TrimEndSpec(s: string)
    ensures var r := TrimEnd(s);
      && r == s[..|r|]
      && (r == [] || !IsSpace(r[|r| - 1]))
      && forall k :: |r| <= k < |s| ==> IsSpace(s[k])
  {
    if s != [] && IsSpace(s[|s| - 1]) {
      TrimEndSpec(s[..|s| - 1]);
    }
  }

  /** `String.prototype.trim`. */
  function Trim(s: string): string
  {
    TrimEnd(TrimStart(s))
  }

  /** Trimming removes white space at both ends and nothing else: the result is a slice of the
      text that neither starts nor ends with white space, and only white space lies around it. */
  lemma {:induction false} TrimSpec(s: string)
    ensures var t := Trim(s); var i := |s| - |TrimStart(s)|;
      && i + |t| <= |s| && t == s[i..i + |t|]
      && AllSpace(s, 0, i, SpaceChars) && AllSpace(s, i + |t|, |s|, SpaceChars)
      && (t == [] || (!IsSpace(t[0]) && !IsSpace(t[|t| - 1])))
  {
    var u := TrimStart(s);
    var t := TrimEnd(u);
    var i := |s| - |u|;
    TrimStartSpec(s);
    TrimEndSpec(u);
    assert u == s[i..];
    assert t == u[..|t|];
    assert t == s[i..i + |t|];
    assert AllSpace(s, 0, i, SpaceChars);
    forall k | i + |t| <= k < |s| ensures IsSpace(s[k]) {
      assert s[k] == u[k - i];
    }
    assert AllSpace(s, i + |t|, |s|, SpaceChars);
    if t != [] {
      assert t[0] == u[0];
    }
  }

  /** Trimming twice is trimming once. */
  lemma {:induction false} TrimIdempotent(s: string)
    ensures Trim(Trim(s)) == Trim(s)
  {
    var t := Trim(s);
    TrimSpec(s);
    assert TrimStart(t) == t;
    assert TrimEnd(t) == t;
  }

  /** The position of the first `x` in `s`. */
  function FirstIndex(s: string, x: char): (i: nat)
    requires x in s
    ensures i < |s| && s[i] == x && x !in s[..i]
  {
    if s[0] == x then 0
    else
      var i := 1 + FirstIndex(s[1..], x);
      assert s[..i] == [s[0]] + s[1..][..i - 1];
      i
  }

  /** `s.replace(x, rep)` with a one-character pattern: only the first `x` is replaced. */
  function ReplaceFirst(s: string, x: char, rep: string): (r: string)
    ensures x !in s ==> r == s
  {
    if s == [] then []
    else if s[0] == x then rep + s[1..]
    else [s[0]] + ReplaceFirst(s[1..], x, rep)
  }

  /** The first `x` is replaced, and everything before and after it is kept as it is, later
      occurrences of `x` included. */
  lemma {:induction false} ReplaceFirstAt(s: string, x: char, rep: string)
    requires x in s
    ensures ReplaceFirst(s, x, rep) == s[..FirstIndex(s, x)] + rep + s[FirstIndex(s, x) + 1..]
  {
    var i := FirstIndex(s, x);
    assert s == s[..i] + [x] + s[i + 1..];
    ReplaceFirstSplit(s[..i], x, s[i + 1..], rep);
  }

  /** Exactly one occurrence of `x` is replaced when there is one. */
  lemma {:induction false} ReplaceFirstCount(s: string, x: char, rep: string)
    ensures x in s ==> multiset(ReplaceFirst(s, x, rep)) == multiset(s) - multiset{x} + multiset(rep)
  {
    if x in s {
      var i := FirstIndex(s, x);
      ReplaceFirstAt(s, x, rep);
      assert s == s[..i] + [x] + s[i + 1..];
    }
  }

  /** The stored value of a match. */
  function EscapeValue(raw: string): string
  {
    ReplaceFirst(ReplaceFirst(Trim(raw), '\n', "\\n"), '"', "\\\"")
  }

  /** How often `y` occurs once the first `x` is replaced. */
  lemma {:induction false} ReplaceFirstOccurrences(s: string, x: char, rep: string, y: char)
    ensures multiset(ReplaceFirst(s, x, rep))[y] + (if x in s && y == x then 1 else 0)
      == multiset(s)[y] + (if x in s then multiset(rep)[y] else 0)
  {
    if x in s {
      ReplaceFirstCount(s, x, rep);
      assert multiset(s)[x] > 0;
    }
  }

  /** Escaping touches only the first line feed and the first quote of the trimmed value: the
      first line feed becomes a backslash and `n`, the first quote gets a backslash before it,
      and every further line feed and quote is kept as it is. */
  lemma {:induction false} EscapeValueFirstOnly(raw: string)
    ensures var v := Trim(raw); var e := multiset(EscapeValue(raw));
      && e['\n'] == (if '\n' in v then multiset(v)['\n'] - 1 else multiset(v)['\n'])
      && e['"'] == multiset(v)['"']
      && e['\\'] == multiset(v)['\\'] + (if '\n' in v then 1 else 0) + (if '"' in v then 1 else 0)
  {
    var v := Trim(raw);
    var lf, qu := "\\n", "\\\"";
    var v1 := ReplaceFirst(v, '\n', lf);
    assert multiset(lf)['\n'] == 0 && multiset(lf)['"'] == 0 && multiset(lf)['\\'] == 1 by {
      assert lf == ['\\'] + ['n'];
    }
    assert multiset(qu)['\n'] == 0 && multiset(qu)['"'] == 1 && multiset(qu)['\\'] == 1 by {
      assert qu == ['\\'] + ['"'];
    }
    ReplaceFirstOccurrences(v, '\n', lf, '\n');
    ReplaceFirstOccurrences(v, '\n', lf, '"');
    ReplaceFirstOccurrences(v, '\n', lf, '\\');
    ReplaceFirstOccurrences(v1, '"', qu, '\n');
    ReplaceFirstOccurrences(v1, '"', qu, '"');
    ReplaceFirstOccurrences(v1, '"', qu, '\\');
    assert '"' in v1 <==> '"' in v by {
      assert '"' in v1 <==> multiset(v1)['"'] > 0;
      assert '"' in v <==> multiset(v)['"'] > 0;
    }
  }

  /** A value without line feeds and quotes is stored trimmed and otherwise unchanged. */
  lemma {:induction false} EscapeValuePlain(raw: string)
    requires '\n' !in Trim(raw) && '"' !in Trim(raw)
    ensures EscapeValue(raw) == Trim(raw)
  {
  }

  /** Trimming removes exactly the white space around a text that neither starts nor ends
      with white space. */
  lemma {:induction false} TrimAround(pre: string, t: string, post: string)
    requires forall k :: 0 <= k < |pre| ==> IsSpace(pre[k])
    requires forall k :: 0 <= k < |post| ==> IsSpace(post[k])
    requires t != [] && !IsSpace(t[0]) && !IsSpace(t[|t| - 1])
    ensures Trim(pre + t + post) == t
  {
    TrimStartAround(pre, t + post);
    assert pre + t + post == pre + (t + post);
    TrimEndAround(t, post);
  }

  lemma {:induction false} TrimStartAround(pre: string, u: string)
    requires forall k :: 0 <= k < |pre| ==> IsSpace(pre[k])
    requires u != [] && !IsSpace(u[0])
    ensures TrimStart(pre + u) == u
  {
    if pre != [] {
      assert (pre + u)[1..] == pre[1..] + u;
      TrimStartAround(pre[1..], u);
    }
  }

  lemma {:induction false} TrimEndAround(t: string, post: string)
    requires forall k :: 0 <= k < |post| ==> IsSpace(post[k])
    requires t != [] && !IsSpace(t[|t| - 1])
    ensures TrimEnd(t + post) == t
  {
    if post != [] {
      assert (t + post)[..|t + post| - 1] == t + post[..|post| - 1];
      TrimEndAround(t, post[..|post| - 1]);
    }
  }

  lemma {:induction false} ReplaceFirstSplit(p: string, x: char, q: string, rep: string)
    requires x !in p
    ensures ReplaceFirst(p + [x] + q, x, rep) == p + rep + q
  {
    if p != [] {
      assert (p + [x] + q)[1..] == p[1..] + [x] + q;
      ReplaceFirstSplit(p[1..], x, q, rep);
    } else {
      assert p + [x] + q == [x] + q;
    }
  }

  /** A value spread over three lines: only the first line break is escaped. */
  lemma {:induction false} EscapeValueScenario()
    ensures EscapeValue(" " + "one" + "\n" + "two" + "\n" + "three" + "\n")
      == "one" + "\\n" + "two" + "\n" + "three"
  {
    var tail := "two" + "\n" + "three";
    var t := "one" + "\n" + tail;
    assert " " + "one" + "\n" + "two" + "\n" + "three" + "\n" == " " + t + "\n";
    assert t[0] == 'o' && t[|t| - 1] == 'e';
    TrimAround(" ", t, "\n");
    assert t == "one" + ['\n'] + tail;
    ReplaceFirstSplit("one", '\n', tail, "\\n");
    var v1 := ReplaceFirst(t, '\n', "\\n");
    assert '"' !in v1;
  }

  // ---------------------------------------------------------------------------------------
  // One language file

  /** The stored entry of a match: its key and its escaped value. */
  function Entry(c: string, m: Match): (string, string)
    requires m.Within(|c|)
  {
    (c[m.keyStart..m.keyEnd], EscapeValue(c[m.valueStart..m.valueEnd]))
  }

  function Entries(c: string, ms: seq<Match>): (r: seq<(string, string)>)
    requires forall i :: 0 <= i < |ms| ==> ms[i].Within(|c|)
    ensures |r| == |ms|
    ensures forall i :: 0 <= i < |ms| && ms[i].Within(|c|) ==> r[i].0 == c[ms[i].keyStart..ms[i].keyEnd]
  {
    if ms == [] then [] else Entries(c, ms[..|ms| - 1]) + [Entry(c, ms[|ms| - 1])]
  }

  lemma {:induction false} EntriesAt(c: string, ms: seq<Match>, i: nat)
    requires forall i :: 0 <= i < |ms| ==> ms[i].Within(|c|)
    requires i < |ms|
    ensures Entries(c, ms)[i] == Entry(c, ms[i])
  {
    var init := ms[..|ms| - 1];
    assert Entries(c, ms) == Entries(c, init) + [Entry(c, ms[|ms| - 1])];
    if i < |init| {
      EntriesAt(c, init, i);
    }
  }

  lemma {:induction false} EntriesSnoc(c: string, ms: seq<Match>, m: Match)
    requires forall i :: 0 <= i < |ms| ==> ms[i].Within(|c|)
    requires m.Within(|c|)
    ensures FromPairs(Entries(c, ms + [m])) == FromPairs(Entries(c, ms)).Put(Entry(c, m).0, Entry(c, m).1)
  {
    assert (ms + [m])[..|ms|] == ms;
  }

  /** The table of one language file (`lang_data`): every match, in order, stores its escaped
      value under its key. */
  function LangData(c: string): OrderedMap<string>
  {
    FromPairs(Entries(c, Matches(c, 0)))
  }

  /** The extraction loop of one file. */
  method ScanLanguage(content: string) returns (langData: OrderedMap<string>)
    ensures langData == LangData(content)
  {
    langData := Empty();
    var lastIndex := 0;
    ghost var done: seq<Match> := [];
    assert done + Matches(content, lastIndex) == Matches(content, 0);
    while true
      invariant lastIndex <= |content|
      invariant done + Matches(content, lastIndex) == Matches(content, 0)
      invariant forall i :: 0 <= i < |done| ==> done[i].Within(|content|)
      invariant langData == FromPairs(Entries(content, done))
      decreases |content| - lastIndex
    {
      var m := Exec(content, lastIndex);
      if m.None? {
        break;
      }
      var key := content[m.value.keyStart..m.value.keyEnd];
      langData := langData.Put(key, EscapeValue(content[m.value.valueStart..m.value.valueEnd]));
      EntriesSnoc(content, done, m.value);
      ScanStep(content, lastIndex, done);
      done := done + [m.value];
      lastIndex := m.value.End();
    }
    assert done == Matches(content, 0);
  }

  /** `ms[i]` has key `key`, and no later match has. */
  ghost predicate LastMatchOf(c: string, ms: seq<Match>, key: string, i: nat)
  {
    && i < |ms| && ms[i].Within(|c|) && c[ms[i].keyStart..ms[i].keyEnd] == key
    && forall l :: i < l < |ms| && ms[l].Within(|c|) ==> c[ms[l].keyStart..ms[l].keyEnd] != key
  }

  /** The keys of a language keep the order of their first match. */
  lemma {:induction false} LangDataKeys(c: string)
    ensures LangData(c).Valid()
    ensures LangData(c).keys == Dedup(PairKeys(Entries(c, Matches(c, 0))))
  {
    FromPairsSpec(Entries(c, Matches(c, 0)), "");
  }

  /** `v` is the escaped value of the last match of `ms` with key `key`. */
  ghost predicate IsLastValue(c: string, ms: seq<Match>, key: string, v: string)
  {
    exists i: nat :: LastMatchOf(c, ms, key, i) && v == EscapeValue(c[ms[i].valueStart..ms[i].valueEnd])
  }

  /** Some match of `ms` has key `key`. */
  ghost predicate HasKey(c: string, ms: seq<Match>, key: string)
  {
    exists i :: 0 <= i < |ms| && ms[i].Within(|c|) && c[ms[i].keyStart..ms[i].keyEnd] == key
  }

  lemma {:induction false} EntriesHas(c: string, ms: seq<Match>, key: string)
    requires forall i :: 0 <= i < |ms| ==> ms[i].Within(|c|)
    ensures key in FromPairs(Entries(c, ms)).entries <==> HasKey(c, ms, key)
  {
    var es := Entries(c, ms);
    FromPairsSpec(es, key);
    LastValueSome(es, key);
    if key in FromPairs(es).entries {
      var i :| 0 <= i < |es| && es[i].0 == key;
      assert c[ms[i].keyStart..ms[i].keyEnd] == key;
    } else {
      forall i | 0 <= i < |ms| ensures c[ms[i].keyStart..ms[i].keyEnd] != key {
        assert es[i].0 == c[ms[i].keyStart..ms[i].keyEnd];
      }
    }
  }

  lemma {:induction false} EntriesValue(c: string, ms: seq<Match>, key: string)
    requires forall i :: 0 <= i < |ms| ==> ms[i].Within(|c|)
    requires key in FromPairs(Entries(c, ms)).entries
    ensures IsLastValue(c, ms, key, FromPairs(Entries(c, ms)).entries[key])
  {
    var es := Entries(c, ms);
    FromPairsLast(es, key);
    var i: nat :| LastPairAt(es, key, i) && FromPairs(es).entries[key] == es[i].1;
    assert LastMatchOf(c, ms, key, i);
    EntriesAt(c, ms, i);
  }

  /** A key has an entry exactly when some match has that key. */
  lemma {:induction false} LangDataHas(c: string, key: string)
    ensures key in LangData(c).entries <==> HasKey(c, Matches(c, 0), key)
  {
    EntriesHas(c, Matches(c, 0), key);
  }

  /** The value of a key is the escaped value of its last match: a later key overwrites an
      earlier one. */
  lemma {:induction false} LangDataValue(c: string, key: string)
    requires key in LangData(c).entries
    ensures IsLastValue(c, Matches(c, 0), key, LangData(c).entries[key])
  {
    EntriesValue(c, Matches(c, 0), key);
  }

  /** The key may itself hold `=`: `\S+` takes the longest key for which a match exists. */
  lemma {:induction false} GreedyKeyScenario()
    ensures var c := "a=b" + " " + "=" + " " + "[[" + "x" + "]]";
      Exec(c, 0) == Some(Match(0, 0, 3, 4, 8, 9)) && c[0..3] == "a=b"
  {
    var c := "a=b" + " " + "=" + " " + "[[" + "x" + "]]";
    assert |c| == 11;
    assert c[0] == 'a' && c[1] == '=' && c[2] == 'b' && c[3] == ' ' && c[4] == '=' && c[5] == ' ';
    assert c[6] == '[' && c[7] == '[' && c[8] == 'x' && c[9] == ']' && c[10] == ']';
    assert SkipSpace(c, 0, SpaceChars) == 0;
    assert SkipNonSpace(c, 3, SpaceChars) == 3;
    assert SkipNonSpace(c, 2, SpaceChars) == 3;
    assert SkipNonSpace(c, 1, SpaceChars) == 3;
    assert SkipNonSpace(c, 0, SpaceChars) == 3;
    assert SkipSpace(c, 3, SpaceChars) == 4;
    assert SkipSpace(c, 5, SpaceChars) == 6;
    assert FindClose(c, 8) == Some(9);
    assert MatchRest(c, 0, 0, 3) == Some(Match(0, 0, 3, 4, 8, 9));
    assert MatchAt(c, 0) == Some(Match(0, 0, 3, 4, 8, 9));
  }

  // ---------------------------------------------------------------------------------------
  // All files

  /** One file of the asset directory. */
  datatype AssetFile = AssetFile(filename: string, content: string)

  /** `path.parse(filename).name`: the file name without its extension, the extension being
      the text from the last dot on, unless that dot is the first character or the name is `..`. */
  function FileStem(filename: string): (r: string)
    ensures |r| <= |filename| && r == filename[..|r|]
    ensures r != filename ==> 0 < |r| && filename[|r|] == '.' && '.' !in filename[|r| + 1..]
  {
    if filename == ".." then filename
    else match LastIndexOf(filename, '.')
      case None => filename
      case Some(i) => if i == 0 then filename else filename[..i]
  }

  /** A file name with an extension loses exactly that extension, dots inside the stem included:
      `fr.txt` gives `fr` and `pt.br.txt` gives `pt.br`. */
  lemma {:induction false} FileStemOfExtension(stem: string, ext: string)
    requires stem != [] && stem[0] != '.' && '.' !in ext
    ensures FileStem(stem + "." + ext) == stem
  {
    LastIndexOfAfter(stem + ".", ext, '.');
    assert (stem + "." + ext)[..|stem|] == stem;
  }

  /** A name without a dot, or whose only dot is its first character, is its own stem. */
  lemma {:induction false} FileStemNoExtension(filename: string)
    requires '.' !in filename || (filename[0] == '.' && '.' !in filename[1..])
    ensures FileStem(filename) == filename
  {
  }

  /** The stems of the files, in directory order. */
  function Stems(files: seq<AssetFile>): (r: seq<string>)
    ensures |r| == |files|
  {
    seq(|files|, i requires 0 <= i < |files| => FileStem(files[i].filename))
  }

  /** The whole catalog (`lua_data`): each file, in directory order, stores the table of its
      content under its stem. */
  function LuaData(files: seq<AssetFile>): (r: OrderedMap<OrderedMap<string>>)
  {
    FromPairs(FileTables(files))
  }

  /** What one file contributes: its stem and the table of its content. */
  function FileTable(f: AssetFile): (string, OrderedMap<string>)
  {
    (FileStem(f.filename), LangData(f.content))
  }

  function FileTables(files: seq<AssetFile>): (r: seq<(string, OrderedMap<string>)>)
    ensures |r| == |files|
  {
    seq(|files|, i requires 0 <= i < |files| => FileTable(files[i]))
  }

  /** The `forEach` over the directory listing. */
  method ReadLuaData(files: seq<AssetFile>) returns (luaData: OrderedMap<OrderedMap<string>>)
    ensures luaData == LuaData(files)
  {
    luaData := Empty();
    var i := 0;
    while i < |files|
      invariant 0 <= i <= |files|
      invariant luaData == FromPairs(FileTables(files)[..i])
    {
      var langName := FileStem(files[i].filename);
      var langData := ScanLanguage(files[i].content);
      assert FileTables(files)[..i + 1][..i] == FileTables(files)[..i];
      assert FileTables(files)[i].0 == langName && FileTables(files)[i].1 == langData;
      luaData := luaData.Put(langName, langData);
      i := i + 1;
    }
    assert FileTables(files)[..i] == FileTables(files);
  }

  /** Some file has stem `lang`. */
  ghost predicate HasStem(files: seq<AssetFile>, lang: string)
  {
    exists i :: 0 <= i < |files| && FileStem(files[i].filename) == lang
  }

  /** `files[i]` has stem `lang`, and no later file has. */
  ghost predicate LastFileOf(files: seq<AssetFile>, lang: string, i: nat)
  {
    i < |files| && FileStem(files[i].filename) == lang
    && forall l :: i < l < |files| ==> FileStem(files[l].filename) != lang
  }

  /** `t` is the table of the last file with stem `lang`. */
  ghost predicate IsLastFileTable(files: seq<AssetFile>, lang: string, t: OrderedMap<string>)
  {
    exists i: nat :: LastFileOf(files, lang, i) && t == LangData(files[i].content)
  }

  /** Languages keep the order of the first file with their stem. */
  lemma {:induction false} LuaDataKeys(files: seq<AssetFile>)
    ensures LuaData(files).Valid()
    ensures LuaData(files).keys == Dedup(Stems(files))
  {
    FromPairsSpec(FileTables(files), "");
    assert PairKeys(FileTables(files)) == Stems(files);
  }

  /** Every file read yields one language, named by its stem. */
  lemma {:induction false} LuaDataHas(files: seq<AssetFile>, lang: string)
    ensures lang in LuaData(files).entries <==> HasStem(files, lang)
  {
    var ts := FileTables(files);
    FromPairsSpec(ts, lang);
    LastValueSome(ts, lang);
    if lang in LuaData(files).entries {
      var i :| 0 <= i < |ts| && ts[i].0 == lang;
      assert ts[i] == FileTable(files[i]);
    } else {
      forall i | 0 <= i < |files| ensures FileStem(files[i].filename) != lang {
        assert ts[i] == FileTable(files[i]);
      }
    }
  }

  /** Of files with the same stem, the last one read wins. */
  lemma {:induction false} LuaDataValue(files: seq<AssetFile>, lang: string)
    requires lang in LuaData(files).entries
    ensures IsLastFileTable(files, lang, LuaData(files).entries[lang])
  {
    var ts := FileTables(files);
    FromPairsLast(ts, lang);
    var i: nat :| LastPairAt(ts, lang, i) && LuaData(files).entries[lang] == ts[i].1;
    assert ts[i].1 == LangData(files[i].content);
    forall l | i < l < |files| ensures FileStem(files[l].filename) != lang {
      assert ts[l].0 == FileStem(files[l].filename);
    }
    assert LastFileOf(files, lang, i);
  }

  /** With distinct stems, there is exactly one language per file, in directory order. */
  lemma {:induction false} LuaDataOnePerFile(files: seq<AssetFile>)
    requires forall i, j :: 0 <= i < j < |files| ==> FileStem(files[i].filename) != FileStem(files[j].filename)
    ensures LuaData(files).keys == Stems(files)
  {
    LuaDataKeys(files);
    DedupDistinct(Stems(files));
  }

  /** Every table of the catalog is valid. */
  lemma {:induction false} LuaDataValid(files: seq<AssetFile>)
    ensures LuaTranslations.ValidTables(LuaData(files))
  {
    LuaDataKeys(files);
    forall lang | lang in LuaData(files).entries ensures LuaData(files).entries[lang].Valid() {
      LuaDataValue(files, lang);
      var i: nat :| LastFileOf(files, lang, i) && LuaData(files).entries[lang] == LangData(files[i].content);
      LangDataKeys(files[i].content);
    }
  }

  // ---------------------------------------------------------------------------------------
  // Rendering

  /** One entry of a language table: `key = "value"`, the key written bare. */
  function LegacyEntryChunk(key: string, value: string): string
  {
    key + " = \"" + value + "\""
  }

  /** The entries of the keys `keys` of a table, in order (`loc_chunks`). */
  function LegacyEntryChunks(keys: seq<string>, entries: map<string, string>): (r: seq<string>)
    requires forall k :: k in keys ==> k in entries
    ensures |r| == |keys|
  {
    if keys == [] then []
    else
      var k := keys[|keys| - 1];
      LegacyEntryChunks(keys[..|keys| - 1], entries) + [LegacyEntryChunk(k, entries[k])]
  }

  lemma {:induction false} LegacyEntryChunksSpec(keys: seq<string>, entries: map<string, string>, i: nat)
    requires forall k :: k in keys ==> k in entries
    requires i < |keys|
    ensures LegacyEntryChunks(keys, entries)[i] == LegacyEntryChunk(keys[i], entries[keys[i]])
  {
    var init := keys[..|keys| - 1];
    assert forall k :: k in init ==> k in keys;
    var k := keys[|keys| - 1];
    assert LegacyEntryChunks(keys, entries) == LegacyEntryChunks(init, entries) + [LegacyEntryChunk(k, entries[k])];
    if i < |init| {
      LegacyEntryChunksSpec(init, entries, i);
    }
  }

  /** The block of one language: `translations.lang = {`, the body, `}`. */
  function LegacyBlock(lang: string, chunks: seq<string>): string
  {
    "translations." + lang + " = {\n" + LuaTranslations.BlockBody(chunks) + "\n}"
  }

  /** The block of each language, in catalog order (`lang_chunks`). */
  function LegacyBlocks(langs: seq<string>, tables: map<string, OrderedMap<string>>): (r: seq<string>)
    requires forall l :: l in langs ==> l in tables && tables[l].Valid()
    ensures |r| == |langs|
  {
    if langs == [] then []
    else
      var l := langs[|langs| - 1];
      assert l in langs;
      var table := tables[l];
      assert table.Valid();
      LegacyBlocks(langs[..|langs| - 1], tables) + [LegacyBlock(l, LegacyEntryChunks(table.keys, table.entries))]
  }

  lemma {:induction false} LegacyBlocksSpec(langs: seq<string>, tables: map<string, OrderedMap<string>>, i: nat)
    requires forall l :: l in langs ==> l in tables && tables[l].Valid()
    requires i < |langs|
    ensures LegacyBlocks(langs, tables)[i] ==
      LegacyBlock(langs[i], LegacyEntryChunks(tables[langs[i]].keys, tables[langs[i]].entries))
  {
    var init := langs[..|langs| - 1];
    assert forall l :: l in init ==> l in langs;
    if i < |init| {
      var l := langs[|langs| - 1];
      var block := LegacyBlock(l, LegacyEntryChunks(tables[l].keys, tables[l].entries));
      assert LegacyBlocks(langs, tables) == LegacyBlocks(init, tables) + [block];
      LegacyBlocksSpec(init, tables, i);
    }
  }

  /** The entries of one table, rendered in key order. */
  method RenderLegacyEntries(table: OrderedMap<string>) returns (locChunks: seq<string>)
    requires table.Valid()
    ensures locChunks == LegacyEntryChunks(table.keys, table.entries)
  {
    locChunks := [];
    var i := 0;
    while i < |table.keys|
      invariant 0 <= i <= |table.keys|
      invariant locChunks == LegacyEntryChunks(table.keys[..i], table.entries)
    {
      assert table.keys[..i + 1][..i] == table.keys[..i];
      var locKey := table.keys[i];
      locChunks := locChunks + [LegacyEntryChunk(locKey, table.entries[locKey])];
      i := i + 1;
    }
    assert table.keys[..i] == table.keys;
  }

  /** The rendering loop over `lua_data`: one block per language, then the framing; also the
      number of languages rendered (`langs_cnt`). */
  method RenderLegacy(luaData: OrderedMap<OrderedMap<string>>) returns (output: string, langsCnt: nat)
    requires LuaTranslations.ValidTables(luaData)
    ensures output == LuaTranslations.LuaModule(LegacyBlocks(luaData.keys, luaData.entries))
    ensures langsCnt == |luaData.keys|
  {
    output := LuaTranslations.ModuleHeader;
    var langChunks: seq<string> := [];
    langsCnt := 0;
    var i := 0;
    while i < |luaData.keys|
      invariant 0 <= i <= |luaData.keys| && langsCnt == i
      invariant langChunks == LegacyBlocks(luaData.keys[..i], luaData.entries)
    {
      assert luaData.keys[..i + 1][..i] == luaData.keys[..i];
      var lang := luaData.keys[i];
      var locChunks := RenderLegacyEntries(luaData.entries[lang]);
      var locChunk := LuaTranslations.RenderBody(locChunks);
      langChunks := langChunks + ["translations." + lang + " = {\n" + locChunk + "\n}"];
      langsCnt := langsCnt + 1;
      i := i + 1;
    }
    assert luaData.keys[..i] == luaData.keys;
    output := output + Join(langChunks, "\n\n") + LuaTranslations.ModuleFooter;
  }

  /** The whole legacy compiler on a directory listing: read, then render. */
  function LegacyTranslationsModule(files: seq<AssetFile>): string
  {
    LuaDataValid(files);
    var luaData := LuaData(files);
    LuaTranslations.LuaModule(LegacyBlocks(luaData.keys, luaData.entries))
  }

  /** The whole script: the module it writes and the count it reports. */
  method BuildLegacyTranslations(files: seq<AssetFile>) returns (output: string, langsCnt: nat)
    ensures output == LegacyTranslationsModule(files)
    ensures langsCnt == |Dedup(Stems(files))|
  {
    var luaData := ReadLuaData(files);
    LuaDataValid(files);
    LuaDataKeys(files);
    output, langsCnt := RenderLegacy(luaData);
  }

  /** One block per distinct stem, in order of first appearance; the block of a stem renders
      the table of the last file with that stem. */
  lemma {:induction false} LegacyModuleBlocks(files: seq<AssetFile>, i: nat)
    requires i < |LuaData(files).keys|
    ensures LuaTranslations.ValidTables(LuaData(files))
    ensures LuaData(files).keys == Dedup(Stems(files))
    ensures
      var luaData := LuaData(files);
      var lang := luaData.keys[i];
      && HasStem(files, lang)
      && IsLastFileTable(files, lang, luaData.entries[lang])
      && |LegacyBlocks(luaData.keys, luaData.entries)| == |luaData.keys|
      && LegacyBlocks(luaData.keys, luaData.entries)[i]
         == LegacyBlock(lang, LegacyEntryChunks(luaData.entries[lang].keys, luaData.entries[lang].entries))
  {
    var luaData := LuaData(files);
    LuaDataValid(files);
    LuaDataKeys(files);
    var lang := luaData.keys[i];
    LuaDataHas(files, lang);
    LuaDataValue(files, lang);
    LegacyBlocksSpec(luaData.keys, luaData.entries, i);
  }

  /** A language without matches still gets a block, with an empty body. */
  lemma {:induction false} LegacyEmptyBlock(lang: string)
    ensures LegacyBlock(lang, LegacyEntryChunks([], map[])) == "translations." + lang + " = {\n\n}"
  {
  }

  /** An entry keeps a raw line feed of its value when the value held two of them: only the
      first is escaped, so the rendered block is no longer one entry per line. */
  lemma {:induction false} LegacyEntryKeepsSecondLineFeed()
    ensures
      var e := LegacyEntryChunk("k", EscapeValue(" " + "one" + "\n" + "two" + "\n" + "three" + "\n"));
      e == "k = \"" + "one" + "\\n" + "two" + "\n" + "three" + "\"" && '\n' in e
  {
    EscapeValueScenario();
    var e := "k = \"" + "one" + "\\n" + "two" + "\n" + "three" + "\"";
    assert e[|"k = \"" + "one" + "\\n" + "two"|] == '\n';
  }
}
