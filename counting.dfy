/**
 * The counting loops of mdcites.go (lines 60-89), proved to compute the
 * `Tally` of the cited keys.
 */
module Counting {
  import opened Strings
  import opened Markers
  import opened Counts

  /** Records one citation of `a` (lines 82-84): its count goes up by
      exactly one, starting from zero for a new key; no other count
      changes and no key is removed. */
  method Record(refs: map<string, int>, a: string) returns (refs': map<string, int>)
    ensures refs'.Keys == refs.Keys + {a}
    ensures a in refs ==> refs'[a] == refs[a] + 1
    ensures a !in refs ==> refs'[a] == 1
    ensures forall k :: k in refs && k != a ==> refs'[k] == refs[k]
  {
    var cc := if a in refs then refs[a] else 0;
    cc := cc + 1;
    refs' := refs[a := cc];
  }

  /** The loop over the pieces of a split marker (lines 76-85): every
      piece that is left non-empty after trimming adds one to its key's
      count. */
  method CountPieces(refs: map<string, int>, ghost done: seq<string>, pieces: seq<string>)
    returns (refs': map<string, int>)
    requires refs == Tally(done)
    ensures refs' == Tally(done + ConcatMap(PieceKeys, pieces))
  {
    refs' := refs;
    ghost var seen := done;
    for p := 0 to |pieces|
      invariant seen == done + ConcatMap(PieceKeys, pieces[..p])
      invariant refs' == Tally(seen)
    {
      ConcatMapPrefix(PieceKeys, pieces, p);
      var a := TrimSpace(pieces[p]);
      a := TrimSuffix(a, ';');
      if a == "" {
        continue;
      }
      ghost var before := refs';
      refs' := Record(refs', a);
      CountOneMore(seen, before, a, refs');
      ConcatAssoc(done, ConcatMap(PieceKeys, pieces[..p]), [a]);
      seen := seen + [a];
    }
    assert pieces[..|pieces|] == pieces;
  }

  /** One marker (lines 74-85): its brackets are stripped, the inside
      split on `@` and the pieces counted. */
  method CountMarker(refs: map<string, int>, ghost done: seq<string>, c: string)
    returns (refs': map<string, int>)
    requires IsMarkerText(c)
    requires refs == Tally(done)
    ensures refs' == Tally(done + MarkerKeys(c))
  {
    var tc := c[1..|c| - 1];
    var sp := Split(tc, '@');
    refs' := CountPieces(refs, done, sp);
  }

  /** The loop over the markers of one line (lines 72-86), left to right. */
  method CountLine(refs: map<string, int>, ghost done: seq<string>, line: string)
    returns (refs': map<string, int>)
    requires refs == Tally(done)
    ensures refs' == Tally(done + LineKeys(line))
  {
    var cs := ScanLine(line);
    refs' := refs;
    ghost var seen := done;
    for m := 0 to |cs|
      invariant seen == done + MarkersKeys(cs[..m])
      invariant refs' == Tally(seen)
    {
      MarkersKeysPrefix(cs, m);
      refs' := CountMarker(refs', seen, cs[m]);
      ConcatAssoc(done, MarkersKeys(cs[..m]), MarkerKeys(cs[m]));
      seen := seen + MarkerKeys(cs[m]);
    }
    assert cs[..|cs|] == cs;
  }

  /** The loops of mdcites.go over the files and their lines (lines 60-89):
      every readable file is read line by line, an unreadable one skipped,
      and the keys of every line counted in a map that starts empty. */
  method CountKeys(docs: seq<Document>) returns (refs: map<string, int>)
    ensures refs == Tally(CitedKeys(docs))
  {
    refs := map[];
    ghost var done: seq<string> := [];
    for d := 0 to |docs|
      invariant done == CitedKeys(docs[..d])
      invariant refs == Tally(done)
    {
      ConcatMapPrefix(DocumentKeys, docs, d);
      if docs[d].Unreadable? {
        continue;
      }
      ghost var before := done;
      var lines := docs[d].lines;
      assert before + ConcatMap(LineKeys, lines[..0]) == before;
      for l := 0 to |lines|
        invariant done == before + ConcatMap(LineKeys, lines[..l])
        invariant refs == Tally(done)
      {
        ConcatMapPrefix(LineKeys, lines, l);
        refs := CountLine(refs, done, lines[l]);
        ConcatAssoc(before, ConcatMap(LineKeys, lines[..l]), LineKeys(lines[l]));
        done := done + LineKeys(lines[l]);
      }
      assert lines[..|lines|] == lines;
    }
    assert docs[..|docs|] == docs;
  }
}
