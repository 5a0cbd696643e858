/** The completion summary of gui_app.py: how many records the run produced
    and how many of them are `Success`, read off the results table. */
module Summary {
  import opened Wrappers
  import opened Records
  import opened DataFrame
  import Library

  datatype Counts = Counts(count: nat, successCount: nat)

  /** The positions of the `Success` rows: what the boolean mask
      `df['status'] == 'Success'` selects. */
  function SuccessIndices(rows: seq<Record>): set<int> {
    set i | 0 <= i < |rows| && rows[i].status == Success
  }

  lemma SuccessIndicesStep(rows: seq<Record>)
    requires |rows| > 0
    ensures var n := |rows| - 1;
            |SuccessIndices(rows)| == |SuccessIndices(rows[..n])| + (if rows[n].status == Success then 1 else 0)
  {
    var n := |rows| - 1;
    var prefix := SuccessIndices(rows[..n]);
    assert forall i :: 0 <= i < n ==> rows[..n][i] == rows[i];
    if rows[n].status == Success {
      assert SuccessIndices(rows) == prefix + {n};
      assert n !in prefix;
    } else {
      assert SuccessIndices(rows) == prefix;
    }
  }

  /** What a filter on `Success` owes its result `s`: only `Success` rows of
      the table, every one of them, and exactly as many as there are
      `Success` positions. */
  predicate FilterSpec(rows: seq<Record>, s: seq<Record>) {
    && |s| <= |rows|
    && (forall r :: r in s ==> r in rows && r.status == Success)
    && (forall i :: 0 <= i < |rows| && rows[i].status == Success ==> rows[i] in s)
    && (|s| == |rows| <==> forall i :: 0 <= i < |rows| ==> rows[i].status == Success)
    && |s| == |SuccessIndices(rows)|
  }

  /** `df[df['status'] == 'Success']`: the successful rows, in order. */
  function SuccessRows(rows: seq<Record>): (s: seq<Record>)
    ensures FilterSpec(rows, s)
    decreases |rows|
  {
    if |rows| == 0 then []
    else
      var n := |rows| - 1;
      var prev := SuccessRows(rows[..n]);
      SuccessRowsStep(rows, prev);
      prev + (if rows[n].status == Success then [rows[n]] else [])
  }

  /** Extending the filtered prefix by the last row keeps every clause of
      the filter's contract. */
  lemma SuccessRowsStep(rows: seq<Record>, prev: seq<Record>)
    requires |rows| > 0
    requires FilterSpec(rows[..|rows| - 1], prev)
    ensures var n := |rows| - 1;
            FilterSpec(rows, prev + (if rows[n].status == Success then [rows[n]] else []))
  {
    var n := |rows| - 1;
    var p := rows[..n];
    assert forall i :: 0 <= i < n ==> p[i] == rows[i];
    assert forall r :: r in p ==> r in rows;
    SuccessIndicesStep(rows);
  }

  lemma SuccessRowsUnfold(rows: seq<Record>)
    requires |rows| > 0
    ensures var n := |rows| - 1;
            SuccessRows(rows) == SuccessRows(rows[..n]) + (if rows[n].status == Success then [rows[n]] else [])
  {
  }

  /** Filtering `a + b` and `b` both end with the filtered last row of `b`. */
  lemma SuccessRowsAppendStep(a: seq<Record>, b: seq<Record>)
    requires |b| > 0
    ensures var n := |b| - 1;
            var last := if b[n].status == Success then [b[n]] else [];
            SuccessRows(a + b) == SuccessRows(a + b[..n]) + last && SuccessRows(b) == SuccessRows(b[..n]) + last
  {
    SuccessRowsUnfold(a + b);
    DropLastOfConcat(a, b);
    SuccessRowsUnfold(b);
  }

  lemma DropLastOfConcat(a: seq<Record>, b: seq<Record>)
    requires |b| > 0
    ensures (a + b)[..|a + b| - 1] == a + b[..|b| - 1]
    ensures (a + b)[|a + b| - 1] == b[|b| - 1]
  {
  }

  lemma ConcatAssoc(x: seq<Record>, y: seq<Record>, z: seq<Record>)
    ensures (x + y) + z == x + (y + z)
  {
  }

  /** The mask keeps order and repeats: filtering a concatenation is the
      concatenation of the filtered parts. */
  lemma {:induction false} SuccessRowsAppend(a: seq<Record>, b: seq<Record>)
    ensures SuccessRows(a + b) == SuccessRows(a) + SuccessRows(b)
    decreases |b|
  {
    if |b| == 0 {
      assert a + b == a;
    } else {
      var n := |b| - 1;
      SuccessRowsAppend(a, b[..n]);
      SuccessRowsAppendStep(a, b);
      ConcatAssoc(SuccessRows(a), SuccessRows(b[..n]), if b[n].status == Success then [b[n]] else []);
    }
  }

  /** A single row survives the filter exactly when it is `Success`. */
  lemma SuccessRowsSingle(r: Record)
    ensures SuccessRows([r]) == if r.status == Success then [r] else []
  {
    assert [r][..0] == [];
  }

  /** The two counts for a sequence of records; total, including when the
      sequence is empty. */
  function CountOutcomes(rows: seq<Record>): (c: Counts)
    ensures c.count == |rows|
    ensures c.successCount <= c.count
    ensures c.successCount == c.count <==> forall i :: 0 <= i < |rows| ==> rows[i].status == Success
    ensures c.successCount == 0 <==> forall i :: 0 <= i < |rows| ==> rows[i].status != Success
    ensures c.successCount == |SuccessIndices(rows)|
  {
    var s := SuccessRows(rows);
    assert |s| > 0 ==> s[0] in s;
    Counts(|rows|, |s|)
  }

  /** The summary as written: `df['status']` raises `KeyError` on a table
      without a status column. */
  function SummaryAsWritten(df: Frame): (r: Result<Counts, string>)
    ensures r.Err? <==> StatusColumn !in df.columns
    ensures r.Ok? ==> r.value == CountOutcomes(df.rows)
    ensures r.Ok? ==> r.value.count == |df.rows| && r.value.successCount == |SuccessIndices(df.rows)|
  {
    if StatusColumn !in df.columns then Err("status")
    else Ok(CountOutcomes(df.rows))
  }

  /** A results table built from no records has no columns, so the summary
      as written raises `KeyError('status')` instead of reporting zero. */
  lemma SummaryFailsOnEmptyTable()
    ensures SummaryAsWritten(FromRecords([])) == Err("status")
    ensures CountOutcomes(FromRecords([]).rows) == Counts(0, 0)
  {
  }

  /** On any table built from at least one record the summary as written and
      `CountOutcomes` agree. */
  lemma SummaryAgreesOnNonEmptyTable(records: seq<Record>)
    requires |records| > 0
    ensures SummaryAsWritten(FromRecords(records)) == Ok(CountOutcomes(records))
  {
  }

  /** The number of entries whose DOI is truthy and whose lookup returns a
      truthy dictionary. */
  function ResolvableCount(entries: seq<Entry>, fetch: Fetcher): nat
    decreases |entries|
  {
    if |entries| == 0 then 0
    else
      var n := |entries| - 1;
      var e := entries[n];
      ResolvableCount(entries[..n], fetch)
      + (if DoiTruthy(e.doi) && MetadataTruthy(fetch(e.doi.value)) then 1 else 0)
  }

  /** After a run, the total is the number of scanned files and the success
      count is the number of files with a resolvable DOI. */
  lemma {:induction false} RunCounts(entries: seq<Entry>, fetch: Fetcher)
    ensures CountOutcomes(Library.ClassifyAll(entries, fetch)).count == |entries|
    ensures CountOutcomes(Library.ClassifyAll(entries, fetch)).successCount == ResolvableCount(entries, fetch)
    decreases |entries|
  {
    if |entries| > 0 {
      var n := |entries| - 1;
      var rs := Library.ClassifyAll(entries, fetch);
      assert rs[..n] == Library.ClassifyAll(entries[..n], fetch);
      assert rs[n] == Classify(entries[n], fetch);
      RunCounts(entries[..n], fetch);
    }
  }
}
