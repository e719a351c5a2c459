/**
 * The citation count of mdcites.go (lines 60-89): every readable markdown
 * file, line by line and marker by marker, adds one to the count of each
 * key it cites. `CitedKeys` lists the citations in order; `Tally` is the
 * count they add up to, as a value.
 */
module Counts {
  import opened Strings
  import opened Markers

  /** One markdown file of the directory: it could not be opened (the source
      reports the error and skips it), or its lines. */
  datatype Document = Unreadable | Readable(lines: seq<string>)

  /** The keys a file cites, in order of appearance. */
  function DocumentKeys(d: Document): seq<string> {
    match d
    case Unreadable => []
    case Readable(lines) => ConcatMap(LineKeys, lines)
  }

  /** The keys all files cite, file by file. */
  function CitedKeys(docs: seq<Document>): seq<string> {
    ConcatMap(DocumentKeys, docs)
  }

  /** Every key a file cites is a token. */
  lemma {:induction false} LinesKeysTokens(lines: seq<string>)
    ensures forall k :: 0 <= k < |ConcatMap(LineKeys, lines)| ==> IsToken(ConcatMap(LineKeys, lines)[k])
  {
    if lines != [] {
      var init := lines[..|lines| - 1];
      LinesKeysTokens(init);
      LineKeysTokens(lines[|lines| - 1]);
      TokensAppend(ConcatMap(LineKeys, init), LineKeys(lines[|lines| - 1]));
    }
  }

  /** Every key any file cites is a token: it is not empty, it is made of
      letters, digits and single hyphens, and it starts with a letter or
      digit. */
  lemma {:induction false} CitedKeysTokens(docs: seq<Document>)
    ensures forall k :: 0 <= k < |CitedKeys(docs)| ==> IsToken(CitedKeys(docs)[k])
  {
    if docs != [] {
      var init, last := docs[..|docs| - 1], docs[|docs| - 1];
      CitedKeysTokens(init);
      if last.Readable? {
        LinesKeysTokens(last.lines);
      }
      TokensAppend(CitedKeys(init), DocumentKeys(last));
    }
  }

  /** How often each key occurs. */
  function Tally(keys: seq<string>): map<string, int> {
    map k | k in keys :: multiset(keys)[k]
  }

  /** One more occurrence of `a`: its count, or 1 for a new key. */
  lemma TallySnoc(keys: seq<string>, a: string)
    ensures Tally(keys + [a]) == Tally(keys)[a := (if a in Tally(keys) then Tally(keys)[a] else 0) + 1]
  {
    assert multiset(keys + [a]) == multiset(keys) + multiset{a};
    assert forall k :: k in keys + [a] <==> k in keys || k == a;
  }

  /** A map that agrees with `m[a := v]` on its keys and values is that
      map. */
  lemma UpdateEquals(m: map<string, int>, m': map<string, int>, a: string, v: int)
    requires m'.Keys == m.Keys + {a} && m'[a] == v
    requires forall k :: k in m && k != a ==> m'[k] == m[k]
    ensures m' == m[a := v]
  {
  }

  /** Adding one to the count of `a`, from zero if it is new, turns the
      tally of `keys` into the tally of `keys + [a]`. */
  lemma CountOneMore(keys: seq<string>, refs: map<string, int>, a: string, refs': map<string, int>)
    requires refs == Tally(keys)
    requires refs'.Keys == refs.Keys + {a}
    requires a in refs ==> refs'[a] == refs[a] + 1
    requires a !in refs ==> refs'[a] == 1
    requires forall k :: k in refs && k != a ==> refs'[k] == refs[k]
    ensures refs' == Tally(keys + [a])
  {
    TallySnoc(keys, a);
    UpdateEquals(refs, refs', a, (if a in refs then refs[a] else 0) + 1);
  }

  /** The counted keys are the cited keys, each counted at least once. */
  lemma TallyKeys(keys: seq<string>)
    ensures Tally(keys).Keys == Elems(keys)
    ensures forall k :: k in Tally(keys) ==> Tally(keys)[k] >= 1
  {
  }

  /** Counts add up across consecutive runs of keys. */
  lemma TallyAppend(xs: seq<string>, ys: seq<string>, k: string)
    ensures (if k in Tally(xs + ys) then Tally(xs + ys)[k] else 0)
      == (if k in Tally(xs) then Tally(xs)[k] else 0) + (if k in Tally(ys) then Tally(ys)[k] else 0)
  {
    assert multiset(xs + ys) == multiset(xs) + multiset(ys);
  }

  /** The sum of the counts of a map. */
  ghost function Total(m: map<string, int>): int
    decreases |m|
  {
    if m == map[] then 0
    else
      var k :| k in m;
      m[k] + Total(m - {k})
  }

  /** `Total` does not depend on which key it takes first. */
  lemma {:induction false} TotalRemove(m: map<string, int>, k: string)
    requires k in m
    ensures Total(m) == m[k] + Total(m - {k})
    decreases |m|
  {
    var j :| j in m && Total(m) == m[j] + Total(m - {j});
    if j != k {
      assert (m - {j}) - {k} == (m - {k}) - {j};
      assert |m - {j}| < |m|;
      TotalRemove(m - {j}, k);
      assert |m - {k}| < |m|;
      TotalRemove(m - {k}, j);
    }
  }

  /** Setting one count changes the sum by the difference. */
  lemma TotalUpdate(m: map<string, int>, a: string, v: int)
    ensures Total(m[a := v]) == Total(m) - (if a in m then m[a] else 0) + v
  {
    TotalRemove(m[a := v], a);
    assert m[a := v] - {a} == m - {a};
    if a in m {
      TotalRemove(m, a);
    } else {
      assert m - {a} == m;
    }
  }

  /** The counts add up to the number of citations. */
  lemma {:induction false} TallyTotal(keys: seq<string>)
    ensures Total(Tally(keys)) == |keys|
  {
    if keys != [] {
      var init, a := keys[..|keys| - 1], keys[|keys| - 1];
      assert keys == init + [a];
      TallyTotal(init);
      TallySnoc(init, a);
      TotalUpdate(Tally(init), a, (if a in Tally(init) then Tally(init)[a] else 0) + 1);
    }
  }
}
