/**
 * The bibliography side of mdcites.go (lines 92-103): a fresh database that
 * keeps the preambles and string variables of the parsed source and holds
 * the entry of every counted key the source has; the keys it lacks are
 * reported as missing.
 *
 * The BibTeX library is not part of this model. A parsed database is
 * abstracted to its preambles, its string variables and the entries it
 * finds by key (what `Lookup` answers); the three are opaque types here.
 */
module Bibliography {
  import opened Strings

  /** A parsed `.bib` file: preambles, string variables, and the entry
      that `Lookup` returns for each key it knows. */
  datatype Source<P, S, E> = Source(preambles: P, stringVars: S, index: map<string, E>)

  /** The database that is written out. */
  datatype Bib<P, S, E> = Bib(preambles: P, stringVars: S, entries: seq<E>)

  /** A set splits into the part inside `other` and the part outside it. */
  lemma SplitCardinality<T>(s: set<T>, other: set<T>)
    ensures |s| == |s * other| + |s - other|
  {
    assert s == (s * other) + (s - other);
    assert (s * other) * (s - other) == {};
  }

  /** Two repetition-free sequences that enumerate the part of `keys`
      inside `known` and the part outside it are as long as those parts. */
  lemma PartitionSizes<T>(keys: set<T>, known: set<T>, inside: seq<T>, outside: seq<T>)
    requires Distinct(inside) && Elems(inside) == keys * known
    requires Distinct(outside) && Elems(outside) == keys - known
    ensures |inside| == |keys * known|
    ensures |inside| + |outside| == |keys|
    ensures outside == [] <==> keys <= known
  {
    if outside != [] {
      assert outside[0] in keys - known;
    } else {
      forall x | x in keys ensures x in known {
        assert x !in Elems(outside);
      }
    }
    DistinctCardinality(inside);
    DistinctCardinality(outside);
    SplitCardinality(keys, known);
  }

  /** Appending a key and its entry keeps entry `i` the entry of key `i`. */
  lemma EntriesSnoc<E>(index: map<string, E>, keys: seq<string>, entries: seq<E>, r: string)
    requires r in index && |entries| == |keys|
    requires forall i :: 0 <= i < |keys| ==> keys[i] in index && entries[i] == index[keys[i]]
    ensures forall i :: 0 <= i < |keys| + 1 ==>
      (keys + [r])[i] in index && (entries + [index[r]])[i] == index[(keys + [r])[i]]
  {
    forall i | 0 <= i < |keys| + 1
      ensures (keys + [r])[i] in index && (entries + [index[r]])[i] == index[(keys + [r])[i]]
    {
      if i < |keys| {
        assert (keys + [r])[i] == keys[i] && (entries + [index[r]])[i] == entries[i];
      }
    }
  }

  /** Visiting a key with an entry adds it to the found keys. */
  lemma VisitKnown(visited: set<string>, known: set<string>, found: seq<string>, missing: seq<string>, r: string)
    requires r !in visited && r in known
    requires Distinct(found) && Elems(found) == visited * known
    requires Elems(missing) == visited - known
    ensures Distinct(found + [r]) && Elems(found + [r]) == (visited + {r}) * known
    ensures Elems(missing) == (visited + {r}) - known
  {
    DistinctSnoc(found, r);
    ElemsSnoc(found, r);
  }

  /** Visiting a key without an entry adds it to the missing keys. */
  lemma VisitUnknown(visited: set<string>, known: set<string>, found: seq<string>, missing: seq<string>, r: string)
    requires r !in visited && r !in known
    requires Elems(found) == visited * known
    requires Distinct(missing) && Elems(missing) == visited - known
    ensures Elems(found) == (visited + {r}) * known
    ensures Distinct(missing + [r]) && Elems(missing + [r]) == (visited + {r}) - known
  {
    DistinctSnoc(missing, r);
    ElemsSnoc(missing, r);
  }

  /** Entries looked up for all the keys of `index` are all its entries. */
  lemma AllEntries<E>(index: map<string, E>, keys: seq<string>, entries: seq<E>)
    requires Elems(keys) == index.Keys && |entries| == |keys|
    requires forall i :: 0 <= i < |keys| ==> keys[i] in index && entries[i] == index[keys[i]]
    ensures Elems(entries) == index.Values
  {
    forall v | v in index.Values ensures v in Elems(entries) {
      var k :| k in index && index[k] == v;
      assert k in Elems(keys);
      var i :| 0 <= i < |keys| && keys[i] == k;
      assert entries[i] == v;
    }
    forall v | v in Elems(entries) ensures v in index.Values {
      var i :| 0 <= i < |entries| && entries[i] == v;
      assert keys[i] in index;
    }
  }

  /** The loop over the counted keys (lines 92-103). Go visits the keys of
      a map in no fixed order, so the key taken next is any one not yet
      visited. `found` is the order in which the keys with an entry were
      visited: entry `i` of the output is the entry of `found[i]`. */
  method Filter<P, S, E(==)>(src: Source<P, S, E>, refs: map<string, int>)
    returns (out: Bib<P, S, E>, missing: seq<string>, ghost found: seq<string>)
    ensures out.preambles == src.preambles && out.stringVars == src.stringVars
    ensures |out.entries| == |found|
    ensures forall i :: 0 <= i < |found| ==> found[i] in src.index && out.entries[i] == src.index[found[i]]
    ensures Distinct(found) && Distinct(missing)
    ensures Elems(found) == refs.Keys * src.index.Keys
    ensures Elems(missing) == refs.Keys - src.index.Keys
    ensures |out.entries| == |refs.Keys * src.index.Keys|
    ensures |out.entries| + |missing| == |refs|
    ensures missing == [] <==> refs.Keys <= src.index.Keys
    ensures src.index.Keys <= refs.Keys ==> Elems(out.entries) == src.index.Values
  {
    out := Bib(src.preambles, src.stringVars, []);
    missing := [];
    found := [];
    var remaining := refs.Keys;
    ghost var visited: set<string> := {};
    while remaining != {}
      invariant visited <= refs.Keys && remaining == refs.Keys - visited
      invariant out.preambles == src.preambles && out.stringVars == src.stringVars
      invariant |out.entries| == |found|
      invariant forall i :: 0 <= i < |found| ==> found[i] in src.index && out.entries[i] == src.index[found[i]]
      invariant Distinct(found) && Distinct(missing)
      invariant Elems(found) == visited * src.index.Keys
      invariant Elems(missing) == visited - src.index.Keys
      decreases |remaining|
    {
      var r :| r in remaining;
      if r in src.index {
        VisitKnown(visited, src.index.Keys, found, missing, r);
        EntriesSnoc(src.index, found, out.entries, r);
        out := out.(entries := out.entries + [src.index[r]]);
        found := found + [r];
      } else {
        VisitUnknown(visited, src.index.Keys, found, missing, r);
        missing := missing + [r];
      }
      visited := visited + {r};
      remaining := remaining - {r};
    }
    assert visited == refs.Keys;
    PartitionSizes(refs.Keys, src.index.Keys, found, missing);
    if src.index.Keys <= refs.Keys {
      assert refs.Keys * src.index.Keys == src.index.Keys;
      AllEntries(src.index, found, out.entries);
    }
  }
}
