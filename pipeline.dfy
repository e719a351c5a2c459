/**
 * `main` of mdcites.go as a whole: the checks on the command line and the
 * input files, in the order the source makes them, then the count of the
 * citations and the filtered database.
 *
 * What the outside world answers is a parameter: the `-bib` flag, the
 * markdown files of the directory (each readable or not), what opening
 * and parsing the `.bib` file gives, and whether the output file can be
 * created. Printing is left out; the outcome records what would be
 * printed or written.
 */
module Pipeline {
  import opened Strings
  import opened Counts
  import opened Counting
  import opened Bibliography

  /** What opening and parsing the `-bib` file gives (lines 46-57). */
  datatype BibFile<P, S, E> = Unopenable | Malformed | Parsed(src: Source<P, S, E>)

  /** How a run ends. */
  datatype Outcome<P, S, E> =
    | Usage                   // no `-bib` flag: usage printed (lines 33-36)
    | NoMarkdown              // no `.md` file in the directory (lines 40-44)
    | BibUnopenable           // the `.bib` file cannot be opened (lines 46-50)
    | BibMalformed            // the `.bib` file does not parse (lines 51-57)
    | Unwritable(missing: seq<string>, refs: map<string, int>)
                              // the output cannot be created (lines 106-110)
    | Written(out: Bib<P, S, E>, missing: seq<string>, refs: map<string, int>)
                              // the output database is written (line 111)

  /** The exit status: `os.Exit(1)` on the two fatal errors, 0 when `main`
      returns. */
  function ExitStatus<P, S, E>(o: Outcome<P, S, E>): int {
    match o
    case NoMarkdown => 1
    case BibMalformed => 1
    case _ => 0
  }

  /** One run of the program. `docs` are the markdown files of the
      directory, `bib` what the `-bib` file holds, `canCreate` whether the
      `-out` file can be created. */
  method Run<P, S, E(==)>(srcBib: string, docs: seq<Document>, bib: BibFile<P, S, E>, canCreate: bool)
    returns (o: Outcome<P, S, E>, ghost found: seq<string>)
    ensures o.Usage? <==> srcBib == ""
    ensures o.NoMarkdown? <==> srcBib != "" && docs == []
    ensures o.BibUnopenable? <==> srcBib != "" && docs != [] && bib.Unopenable?
    ensures o.BibMalformed? <==> srcBib != "" && docs != [] && bib.Malformed?
    ensures o.Unwritable? <==> srcBib != "" && docs != [] && bib.Parsed? && !canCreate
    ensures o.Written? <==> srcBib != "" && docs != [] && bib.Parsed? && canCreate
    ensures ExitStatus(o) == (if srcBib != "" && (docs == [] || bib.Malformed?) then 1 else 0)
    ensures (o.Unwritable? || o.Written?) ==>
      && o.refs == Tally(CitedKeys(docs))
      && Distinct(o.missing)
      && Elems(o.missing) == o.refs.Keys - bib.src.index.Keys
    ensures o.Written? ==>
      && o.out.preambles == bib.src.preambles
      && o.out.stringVars == bib.src.stringVars
      && |o.out.entries| == |found|
      && Distinct(found)
      && Elems(found) == o.refs.Keys * bib.src.index.Keys
      && (forall i :: 0 <= i < |found| ==> found[i] in bib.src.index && o.out.entries[i] == bib.src.index[found[i]])
  {
    found := [];
    if srcBib == "" {
      return Usage, found;
    }
    if docs == [] {
      return NoMarkdown, found;
    }
    match bib
    case Unopenable =>
      return BibUnopenable, found;
    case Malformed =>
      return BibMalformed, found;
    case Parsed(src) =>
      var refs := CountKeys(docs);
      var out, missing;
      out, missing, found := Filter(src, refs);
      if !canCreate {
        return Unwritable(missing, refs), found;
      }
      return Written(out, missing, refs), found;
  }
}
