/** The part of a pandas `DataFrame` of outcome records that the program
    observes: which columns exist and the rows, in order. */
module DataFrame {
  import opened Records

  datatype Column = FilePathColumn | DoiColumn | FieldColumn(field: BibField) | StatusColumn

  /** The keys of every record dictionary `process_directory` builds. */
  const RecordColumns: set<Column> :=
    {FilePathColumn, DoiColumn, FieldColumn(Title), FieldColumn(Authors),
     FieldColumn(Year), FieldColumn(Journal), StatusColumn}

  datatype Frame = Frame(columns: set<Column>, rows: seq<Record>) {
    /** `DataFrame.empty`: no rows or no columns. */
    predicate IsEmpty() {
      |rows| == 0 || columns == {}
    }
  }

  /** `pd.DataFrame(records)`: the columns are the union of the records'
      keys, so an empty list gives a frame without any column. */
  function FromRecords(records: seq<Record>): (df: Frame)
    ensures df.rows == records
    ensures StatusColumn in df.columns <==> |records| > 0
    ensures df.IsEmpty() <==> |records| == 0
  {
    Frame(if |records| == 0 then {} else RecordColumns, records)
  }
}
