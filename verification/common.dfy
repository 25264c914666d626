/** Values shared by every generator: failure-carrying results and string joining. */
module Common {

  datatype Option<+T> = None | Some(value: T)

  /** A computation that either yields a value or aborts with an error (a thrown exception). */
  datatype Result<+T, +E> = Success(value: T) | Failure(error: E)

  /** `parts` with `sep` between neighbours, as `Array.prototype.join(sep)` and Python's `sep.join`. */
  function Join(parts: seq<string>, sep: string): string
  {
    if |parts| == 0 then ""
    else if |parts| == 1 then parts[0]
    else parts[0] + sep + Join(parts[1..], sep)
  }

  /** `s` cut at every occurrence of `c`, as `s.split(c)`; there is always at least one piece. */
  function Split(s: string, c: char): (r: seq<string>)
    ensures |r| >= 1
  {
    if |s| == 0 then [""]
    else if s[0] == c then [""] + Split(s[1..], c)
    else var rest := Split(s[1..], c); [[s[0]] + rest[0]] + rest[1..]
  }

  /** The elements of `s` in order of first occurrence, each once. */
  function Dedup(s: seq<string>): seq<string>
  {
    if s == [] then []
    else
      var d := Dedup(s[..|s| - 1]);
      if s[|s| - 1] in d then d else d + [s[|s| - 1]]
  }

  lemma {:induction false} DedupMembers(s: seq<string>, x: string)
    ensures x in Dedup(s) <==> x in s
  {
    if s != [] {
      var init := s[..|s| - 1];
      DedupMembers(init, x);
      assert s == init + [s[|s| - 1]];
    }
  }

  /** A sequence without repetitions is its own deduplication. */
  lemma {:induction false} DedupDistinct(s: seq<string>)
    requires forall i, j :: 0 <= i < j < |s| ==> s[i] != s[j]
    ensures Dedup(s) == s
  {
    if s != [] {
      var init := s[..|s| - 1];
      DedupDistinct(init);
      DedupMembers(init, s[|s| - 1]);
      assert s == init + [s[|s| - 1]];
    }
  }

  /** The values of `rs` in order, or the error of the first failure: a loop that pushes each
      result and lets the first exception escape. */
  function Collect<T, E>(rs: seq<Result<T, E>>): Result<seq<T>, E>
    decreases |rs|
  {
    if rs == [] then Success([])
    else match Collect(rs[..|rs| - 1])
      case Failure(err) => Failure(err)
      case Success(vs) =>
        match rs[|rs| - 1]
        case Failure(err) => Failure(err)
        case Success(v) => Success(vs + [v])
  }

  /** Collecting succeeds exactly when every result does, and then keeps them all, in order. */
  lemma {:induction false} CollectSpec<T, E>(rs: seq<Result<T, E>>)
    ensures Collect(rs).Success? <==> forall i :: 0 <= i < |rs| ==> rs[i].Success?
    ensures Collect(rs).Success? ==>
      && |Collect(rs).value| == |rs|
      && forall i :: 0 <= i < |rs| ==> Collect(rs).value[i] == rs[i].value
    decreases |rs|
  {
    if rs != [] {
      var init := rs[..|rs| - 1];
      assert forall i :: 0 <= i < |init| ==> init[i] == rs[i];
      CollectSpec(init);
    }
  }

  /** A failed collection carries the error of the first failure. */
  lemma {:induction false} CollectFirstFailure<T, E>(rs: seq<Result<T, E>>, i: nat)
    requires i < |rs| && rs[i].Failure?
    requires forall j :: 0 <= j < i ==> rs[j].Success?
    ensures Collect(rs) == Failure(rs[i].error)
    decreases |rs|
  {
    var init := rs[..|rs| - 1];
    assert forall j :: 0 <= j < |init| ==> init[j] == rs[j];
    if i < |rs| - 1 {
      CollectFirstFailure(init, i);
    } else {
      CollectSpec(init);
    }
  }

  /** Collecting results that all succeed gives their values, in order. */
  lemma {:induction false} CollectAll<T, E>(rs: seq<Result<T, E>>, vs: seq<T>)
    requires |vs| == |rs|
    requires forall j :: 0 <= j < |rs| ==> rs[j] == Success(vs[j])
    ensures Collect(rs) == Success(vs)
  {
    CollectSpec(rs);
    assert Collect(rs).value == vs;
  }

  /** The position of the last `x` in `s`. */
  function LastIndexOf(s: string, x: char): (r: Option<nat>)
    ensures r.Some? ==> r.value < |s| && s[r.value] == x && x !in s[r.value + 1..]
    ensures r.None? ==> x !in s
  {
    if s == [] then None
    else if s[|s| - 1] == x then Some(|s| - 1)
    else
      var r := LastIndexOf(s[..|s| - 1], x);
      assert s == s[..|s| - 1] + [s[|s| - 1]];
      r
  }

  /** What follows the last `x` holds no `x`. */
  lemma {:induction false} LastIndexOfAfter(a: string, b: string, x: char)
    requires a != [] && a[|a| - 1] == x && x !in b
    ensures LastIndexOf(a + b, x) == Some(|a| - 1)
  {
    if b != [] {
      var ab := a + b;
      assert ab[..|ab| - 1] == a + b[..|b| - 1];
      assert b[|b| - 1] in b;
      LastIndexOfAfter(a, b[..|b| - 1], x);
    } else {
      assert a + b == a;
    }
  }

  /** One more result: a failure ends a successful prefix, a success extends it. */
  lemma {:induction false} CollectStep<T, E>(rs: seq<Result<T, E>>, i: nat)
    requires i < |rs| && Collect(rs[..i]).Success?
    ensures rs[i].Failure? ==> Collect(rs[..i + 1]) == Failure(rs[i].error)
    ensures rs[i].Success? ==> Collect(rs[..i + 1]) == Success(Collect(rs[..i]).value + [rs[i].value])
  {
    var pre := rs[..i + 1];
    assert pre[..|pre| - 1] == rs[..i] && pre[|pre| - 1] == rs[i];
  }

  /** One step of a loop that collects `rs` left to right: a failure at `i` is the failure
      of the whole collection, a success extends the collected prefix. */
  lemma {:induction false} CollectNext<T, E>(rs: seq<Result<T, E>>, i: nat, done: seq<T>)
    requires i < |rs| && Collect(rs[..i]) == Success(done)
    ensures rs[i].Failure? ==> Collect(rs) == Failure(rs[i].error)
    ensures rs[i].Success? ==> Collect(rs[..i + 1]) == Success(done + [rs[i].value])
  {
    CollectStep(rs, i);
    if rs[i].Failure? {
      CollectPrefixFailure(rs, i + 1);
    }
  }

  /** Once a prefix fails, the whole collection fails with the same error. */
  lemma {:induction false} CollectPrefixFailure<T, E>(rs: seq<Result<T, E>>, n: nat)
    requires n <= |rs| && Collect(rs[..n]).Failure?
    ensures Collect(rs) == Collect(rs[..n])
    decreases |rs|
  {
    if n < |rs| {
      var init := rs[..|rs| - 1];
      assert init[..n] == rs[..n];
      CollectPrefixFailure(init, n);
    } else {
      assert rs[..n] == rs;
    }
  }

  lemma {:induction false} SplitNoSeparator(s: string, c: char)
    requires c !in s
    ensures Split(s, c) == [s]
  {
    if |s| > 0 {
      assert s[0] in s && forall x :: x in s[1..] ==> x in s;
      SplitNoSeparator(s[1..], c);
      assert [s[0]] + s[1..] == s;
    }
  }

  lemma {:induction false} SplitAppend(a: string, c: char, b: string)
    requires c !in a
    ensures Split(a + [c] + b, c) == [a] + Split(b, c)
  {
    if |a| == 0 {
      assert a + [c] + b == [c] + b;
      assert ([c] + b)[1..] == b;
    } else {
      assert (a + [c] + b)[0] == a[0] && a[0] in a;
      assert (a + [c] + b)[1..] == a[1..] + [c] + b;
      assert forall x :: x in a[1..] ==> x in a;
      SplitAppend(a[1..], c, b);
      assert [a[0]] + a[1..] == a;
    }
  }

  /** Splitting a joined, non-empty list of pieces that do not contain the one-character
      separator gives the pieces back: one piece per line, in order. */
  lemma {:induction false} SplitJoin(parts: seq<string>, c: char)
    requires |parts| >= 1
    requires forall i :: 0 <= i < |parts| ==> c !in parts[i]
    ensures Split(Join(parts, [c]), c) == parts
  {
    if |parts| == 1 {
      SplitNoSeparator(parts[0], c);
    } else {
      var rest := parts[1..];
      assert forall i :: 0 <= i < |rest| ==> rest[i] == parts[i + 1];
      SplitJoin(rest, c);
      assert Join(parts, [c]) == parts[0] + [c] + Join(rest, [c]);
      SplitAppend(parts[0], c, Join(rest, [c]));
      assert parts == [parts[0]] + rest;
    }
  }

  lemma {:induction false} JoinSnoc(parts: seq<string>, x: string, sep: string)
    ensures Join(parts + [x], sep) == if |parts| == 0 then x else Join(parts, sep) + sep + x
  {
    if |parts| > 1 {
      assert (parts + [x])[1..] == parts[1..] + [x];
      JoinSnoc(parts[1..], x, sep);
    } else if |parts| == 1 {
      assert (parts + [x])[1..] == [x];
    }
  }

  // ---------------------------------------------------------------------------------------
  // `\s*` and `\S+` of a regular expression, for the engine's white-space set `ws`

  ghost predicate AllSpace(s: string, i: nat, j: nat, ws: set<char>)
    requires i <= j <= |s|
  {
    forall k :: i <= k < j ==> s[k] in ws
  }

  ghost predicate NoSpace(s: string, i: nat, j: nat, ws: set<char>)
    requires i <= j <= |s|
  {
    forall k :: i <= k < j ==> s[k] !in ws
  }

  /** `\s*` taken greedily from `i`: the end of the run of white space starting there. */
  function SkipSpace(s: string, i: nat, ws: set<char>): (r: nat)
    requires i <= |s|
    ensures i <= r <= |s|
    decreases |s| - i
  {
    if i < |s| && s[i] in ws then SkipSpace(s, i + 1, ws) else i
  }

  /** `\S+` taken greedily from `i`: the end of the run of other characters starting there. */
  function SkipNonSpace(s: string, i: nat, ws: set<char>): (r: nat)
    requires i <= |s|
    ensures i <= r <= |s|
    decreases |s| - i
  {
    if i < |s| && s[i] !in ws then SkipNonSpace(s, i + 1, ws) else i
  }

  /** White space runs from `i` up to `SkipSpace(s, i, ws)`, and no further. */
  lemma {:induction false} SkipSpaceSpec(s: string, i: nat, ws: set<char>)
    requires i <= |s|
    ensures var r := SkipSpace(s, i, ws); AllSpace(s, i, r, ws) && (r == |s| || s[r] !in ws)
    decreases |s| - i
  {
    if i < |s| && s[i] in ws {
      SkipSpaceSpec(s, i + 1, ws);
    }
  }

  /** Other characters run from `i` up to `SkipNonSpace(s, i, ws)`, and no further. */
  lemma {:induction false} SkipNonSpaceSpec(s: string, i: nat, ws: set<char>)
    requires i <= |s|
    ensures var r := SkipNonSpace(s, i, ws); NoSpace(s, i, r, ws) && (r == |s| || s[r] in ws)
    decreases |s| - i
  {
    if i < |s| && s[i] !in ws {
      SkipNonSpaceSpec(s, i + 1, ws);
    }
  }

  /** Skipping white space stops exactly at the end of the run. */
  lemma {:induction false} SkipSpaceTo(s: string, i: nat, j: nat, ws: set<char>)
    requires i <= j <= |s| && AllSpace(s, i, j, ws) && (j == |s| || s[j] !in ws)
    ensures SkipSpace(s, i, ws) == j
    decreases j - i
  {
    if i < j {
      SkipSpaceTo(s, i + 1, j, ws);
    }
  }

  /** A run of other characters is taken whole. */
  lemma {:induction false} SkipNonSpaceOver(s: string, i: nat, j: nat, ws: set<char>)
    requires i <= j <= |s| && NoSpace(s, i, j, ws)
    ensures j <= SkipNonSpace(s, i, ws)
    decreases j - i
  {
    if i < j {
      SkipNonSpaceOver(s, i + 1, j, ws);
    }
  }
}

/** An insertion-ordered dictionary with string keys: a JavaScript `Map` or plain object with non-numeric keys,
    or a Python `dict`. Assigning to a key that is present keeps its position. */
module OrderedMaps {
  import opened Common

  datatype OrderedMap<V> = OrderedMap(keys: seq<string>, entries: map<string, V>)
  {
    /** The keys are distinct and are exactly the keys that have an entry. */
    ghost predicate Valid()
    {
      && (forall i, j :: 0 <= i < j < |keys| ==> keys[i] != keys[j])
      && (forall k :: k in entries <==> k in keys)
    }

    /** `m[k] = v` (`Map.prototype.set`, `obj[k] = v`, `d.update({k: v})`). */
    function Put(k: string, v: V): OrderedMap<V>
    {
      OrderedMap(if k in entries then keys else keys + [k], entries[k := v])
    }

    /** The values in key order (`Map.prototype.values()`, `for (k in obj)`). */
    function Values(): (r: seq<V>)
      requires Valid()
      ensures |r| == |keys|
      ensures forall i :: 0 <= i < |keys| ==> r[i] == entries[keys[i]]
    {
      seq(|keys|, i requires 0 <= i < |keys| => entries[keys[i]])
    }
  }

  function Empty<V>(): (r: OrderedMap<V>)
    ensures r.Valid() && r.keys == [] && r.entries == map[]
  {
    OrderedMap([], map[])
  }

  /** Putting a present key replaces its value in place; putting a new key appends it.
      Either way the map stays valid, every other entry is kept, and it grows by at most one. */
  lemma {:induction false} PutSpec<V>(m: OrderedMap<V>, k: string, v: V)
    requires m.Valid()
    ensures m.Put(k, v).Valid()
    ensures m.Put(k, v).entries == m.entries[k := v]
    ensures k in m.entries ==> m.Put(k, v).keys == m.keys
    ensures k !in m.entries ==> m.Put(k, v).keys == m.keys + [k]
    ensures |m.Put(k, v).keys| <= |m.keys| + 1
    ensures forall i :: 0 <= i < |m.keys| ==> m.Put(k, v).keys[i] == m.keys[i]
    ensures m.Put(k, v).entries.Values <= m.entries.Values + {v}
  {
    forall x | x in m.Put(k, v).entries.Values ensures x in m.entries.Values + {v} {
      var y :| y in m.Put(k, v).entries && m.Put(k, v).entries[y] == x;
      if y != k {
        assert m.entries[y] == x;
      }
    }
  }

  /** The dictionary filled by assigning each pair in turn, as a loop of `m[k] = v`. */
  function FromPairs<V>(pairs: seq<(string, V)>): OrderedMap<V>
  {
    if pairs == [] then Empty()
    else
      var (k, v) := pairs[|pairs| - 1];
      FromPairs(pairs[..|pairs| - 1]).Put(k, v)
  }

  /** Reference: the value of the last pair with key `k`. */
  function LastValue<V>(pairs: seq<(string, V)>, k: string): Option<V>
  {
    if pairs == [] then None
    else if pairs[|pairs| - 1].0 == k then Some(pairs[|pairs| - 1].1)
    else LastValue(pairs[..|pairs| - 1], k)
  }

  /** Reference: the keys of the pairs, in order, with repetitions. */
  function PairKeys<V>(pairs: seq<(string, V)>): (r: seq<string>)
    ensures |r| == |pairs|
    ensures forall i :: 0 <= i < |pairs| ==> r[i] == pairs[i].0
  {
    seq(|pairs|, i requires 0 <= i < |pairs| => pairs[i].0)
  }

  /** A key has a value exactly when some pair has that key. */
  lemma {:induction false} LastValueSome<V>(pairs: seq<(string, V)>, k: string)
    ensures LastValue(pairs, k).Some? <==> exists j :: 0 <= j < |pairs| && pairs[j].0 == k
  {
    if pairs != [] {
      var init := pairs[..|pairs| - 1];
      LastValueSome(init, k);
      assert forall j :: 0 <= j < |init| ==> init[j] == pairs[j];
    }
  }

  /** `pairs[j]` is the last pair with key `k`. */
  ghost predicate LastPairAt<V>(pairs: seq<(string, V)>, k: string, j: nat)
  {
    j < |pairs| && pairs[j].0 == k && forall l :: j < l < |pairs| ==> pairs[l].0 != k
  }

  /** The value found is the value of the last pair with that key. */
  lemma {:induction false} LastValueAt<V>(pairs: seq<(string, V)>, k: string)
    requires LastValue(pairs, k).Some?
    ensures exists j: nat :: LastPairAt(pairs, k, j) && pairs[j].1 == LastValue(pairs, k).value
  {
    var init := pairs[..|pairs| - 1];
    if pairs[|pairs| - 1].0 == k {
      assert LastPairAt(pairs, k, |pairs| - 1);
    } else {
      LastValueAt(init, k);
      var j: nat :| LastPairAt(init, k, j) && init[j].1 == LastValue(init, k).value;
      assert init[j] == pairs[j];
      assert LastPairAt(pairs, k, j);
    }
  }

  /** Filling a dictionary pair by pair: the last assignment to a key wins, and the keys keep the
      order of their first assignment. */
  lemma {:induction false} FromPairsSpec<V>(pairs: seq<(string, V)>, k: string)
    ensures FromPairs(pairs).Valid()
    ensures k in FromPairs(pairs).entries <==> LastValue(pairs, k).Some?
    ensures k in FromPairs(pairs).entries ==> FromPairs(pairs).entries[k] == LastValue(pairs, k).value
    ensures FromPairs(pairs).keys == Dedup(PairKeys(pairs))
  {
    if pairs != [] {
      var init := pairs[..|pairs| - 1];
      var (k', v) := pairs[|pairs| - 1];
      FromPairsSpec(init, k);
      FromPairsSpec(init, k');
      PutSpec(FromPairs(init), k', v);
      DedupMembers(PairKeys(init), k');
      assert PairKeys(pairs) == PairKeys(init) + [k'];
      assert (PairKeys(init) + [k'])[..|init|] == PairKeys(init);
    }
  }

  /** The value stored under a key is the value of the last pair with that key. */
  lemma {:induction false} FromPairsLast<V>(pairs: seq<(string, V)>, k: string)
    requires k in FromPairs(pairs).entries
    ensures exists j: nat :: LastPairAt(pairs, k, j) && FromPairs(pairs).entries[k] == pairs[j].1
  {
    FromPairsSpec(pairs, k);
    LastValueAt(pairs, k);
  }
}
