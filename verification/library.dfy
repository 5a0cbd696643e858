/** `LibraryGenerator` (src/library_manager.py): one outcome record per
    scanned file, kept as the generator's current results and handed to the
    XML writer on save. The PDF scanner, the metadata fetcher and the writer
    are not part of this model: the scanner's output is the `entries`
    parameter, the fetcher is the `fetch` parameter, and a save returns the
    call it would make on the writer. */
module Library {
  import opened Wrappers
  import opened Records
  import opened DataFrame

  /** The records of one run, appended in the map's iteration order. */
  function ClassifyAll(entries: seq<Entry>, fetch: Fetcher): (rs: seq<Record>)
    ensures |rs| == |entries|
    ensures forall i :: 0 <= i < |rs| ==>
              rs[i].filePath == entries[i].path && rs[i].doi == entries[i].doi && Consistent(rs[i])
    decreases |entries|
  {
    if |entries| == 0 then []
    else ClassifyAll(entries[..|entries| - 1], fetch) + [Classify(entries[|entries| - 1], fetch)]
  }

  /** The loop of `process_directory`: it builds exactly the records of
      `ClassifyAll`. */
  method BuildRecords(entries: seq<Entry>, fetch: Fetcher) returns (records: seq<Record>)
    ensures records == ClassifyAll(entries, fetch)
  {
    records := [];
    var i := 0;
    while i < |entries|
      invariant 0 <= i <= |entries|
      invariant records == ClassifyAll(entries[..i], fetch)
    {
      assert entries[..i + 1][..i] == entries[..i];
      records := records + [Classify(entries[i], fetch)];
      i := i + 1;
    }
    assert entries[..|entries|] == entries;
  }

  /** Record `i` of a run is the classification of entry `i`. */
  lemma {:induction false} ClassifyAllPointwise(entries: seq<Entry>, fetch: Fetcher, i: int)
    requires 0 <= i < |entries|
    ensures ClassifyAll(entries, fetch)[i] == Classify(entries[i], fetch)
    decreases |entries|
  {
    var n := |entries| - 1;
    if i < n {
      ClassifyAllPointwise(entries[..n], fetch, i);
      assert entries[..n][i] == entries[i];
    }
  }

  function EntryPaths(entries: seq<Entry>): seq<string> {
    seq(|entries|, i requires 0 <= i < |entries| => entries[i].path)
  }

  function RecordPaths(records: seq<Record>): seq<string> {
    seq(|records|, i requires 0 <= i < |records| => records[i].filePath)
  }

  predicate Distinct(xs: seq<string>) {
    forall i, j :: 0 <= i < j < |xs| ==> xs[i] != xs[j]
  }

  /** No drops, no duplicates, same order: the records' paths are the map's
      keys in iteration order, and distinct keys give distinct records. */
  lemma RunKeepsPaths(entries: seq<Entry>, fetch: Fetcher)
    ensures RecordPaths(ClassifyAll(entries, fetch)) == EntryPaths(entries)
    ensures Distinct(EntryPaths(entries)) ==> Distinct(RecordPaths(ClassifyAll(entries, fetch)))
  {
  }

  /** The DOIs the run hands to the fetcher, in the order it asks. */
  function Lookups(entries: seq<Entry>): (ds: seq<string>)
    ensures |ds| <= |entries|
    decreases |entries|
  {
    if |entries| == 0 then []
    else
      var e := entries[|entries| - 1];
      Lookups(entries[..|entries| - 1]) + (if DoiTruthy(e.doi) then [e.doi.value] else [])
  }

  /** The fetcher is asked about a string exactly when it is the truthy DOI
      of some entry. */
  lemma {:induction false} LookupsAreTruthyDois(entries: seq<Entry>, d: string)
    ensures d in Lookups(entries) <==>
              exists i :: 0 <= i < |entries| && entries[i].doi == Some(d) && d != ""
    decreases |entries|
  {
    if |entries| > 0 {
      var n := |entries| - 1;
      LookupsAreTruthyDois(entries[..n], d);
      if exists i :: 0 <= i < |entries| && entries[i].doi == Some(d) && d != "" {
        var i :| 0 <= i < |entries| && entries[i].doi == Some(d) && d != "";
        if i < n {
          assert entries[..n][i] == entries[i];
        }
      }
      if exists i :: 0 <= i < n && entries[..n][i].doi == Some(d) && d != "" {
        var i :| 0 <= i < n && entries[..n][i].doi == Some(d) && d != "";
        assert entries[i] == entries[..n][i];
      }
    }
  }

  /** Only the looked-up DOIs matter: two fetchers that agree on them yield
      the same run, so entries without a truthy DOI never reach the fetcher. */
  lemma {:induction false} RunDependsOnlyOnLookups(entries: seq<Entry>, f: Fetcher, g: Fetcher)
    requires forall d :: d in Lookups(entries) ==> f(d) == g(d)
    ensures ClassifyAll(entries, f) == ClassifyAll(entries, g)
    decreases |entries|
  {
    if |entries| > 0 {
      var n := |entries| - 1;
      var e := entries[n];
      assert forall d :: d in Lookups(entries[..n]) ==> d in Lookups(entries);
      RunDependsOnlyOnLookups(entries[..n], f, g);
      if DoiTruthy(e.doi) {
        assert e.doi.value in Lookups(entries);
      }
      ClassifyDependsOnlyOnOwnDoi(e, f, g);
    }
  }

  /** The generator's state: the results of its latest run. */
  datatype Generator = Generator(results: Frame)

  /** A fresh generator holds an empty frame. */
  function NewGenerator(): Generator {
    Generator(Frame({}, []))
  }

  /** `process_directory`: the new run's records replace the stored results
      and are also returned. */
  function ProcessDirectory(g: Generator, entries: seq<Entry>, fetch: Fetcher): (out: (Generator, Frame))
    ensures out.0.results == out.1
    ensures out.1.rows == ClassifyAll(entries, fetch)
    ensures |out.1.rows| == |entries|
    ensures forall i :: 0 <= i < |entries| ==>
              out.1.rows[i].filePath == entries[i].path && out.1.rows[i].status.Terminal()
  {
    var df := FromRecords(ClassifyAll(entries, fetch));
    (Generator(df), df)
  }

  /** A second run does not accumulate: its results are those of a run on a
      fresh generator. */
  lemma RunsDoNotAccumulate(g: Generator, e1: seq<Entry>, f1: Fetcher, e2: seq<Entry>, f2: Fetcher)
    ensures ProcessDirectory(ProcessDirectory(g, e1, f1).0, e2, f2) == ProcessDirectory(NewGenerator(), e2, f2)
    ensures ProcessDirectory(ProcessDirectory(g, e1, f1).0, e2, f2).0.results.rows == ClassifyAll(e2, f2)
  {
  }

  /** The call `save_library` makes on the XML writer. */
  datatype WriterCall = WriterCall(records: seq<Record>, outputPath: string)

  /** `save_library`: nothing when the stored results are empty, otherwise
      the stored records, in order, go to the writer. */
  function SaveLibrary(g: Generator, outputPath: string): (call: Option<WriterCall>)
    ensures call.None? <==> g.results.IsEmpty()
    ensures call.Some? ==> call.value.records == g.results.rows && call.value.outputPath == outputPath
  {
    if g.results.IsEmpty() then None
    else Some(WriterCall(g.results.rows, outputPath))
  }

  /** Saving after a run writes the run's records, in map order, exactly
      when the map had entries. */
  lemma SaveAfterRun(g: Generator, entries: seq<Entry>, fetch: Fetcher, outputPath: string)
    ensures SaveLibrary(ProcessDirectory(g, entries, fetch).0, outputPath) ==
              if |entries| == 0 then None else Some(WriterCall(ClassifyAll(entries, fetch), outputPath))
    ensures SaveLibrary(NewGenerator(), outputPath) == None
  {
  }
}
