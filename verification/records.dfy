/** The per-file outcome record built by `LibraryGenerator.process_directory`
    (src/library_manager.py) and the rule that moves it from `Pending` to one
    of its three terminal statuses. */
module Records {
  import opened Wrappers

  /** The bibliographic keys a metadata lookup may supply. */
  datatype BibField = Title | Authors | Year | Journal

  /** A bibliographic value as the fetcher hands it over. */
  datatype Value = Text(text: string) | Number(number: int)

  /** A fetched metadata dictionary, restricted to the bibliographic keys.
      A key may be present with the value `None`. */
  type Metadata = map<BibField, Option<Value>>

  /** The remote lookup, which is not part of this model: a DOI in, a
      dictionary or `None` out. */
  type Fetcher = string -> Option<Metadata>

  datatype Status = Pending | Success | MetadataNotFound | DoiNotFound {
    predicate Terminal() {
      !Pending?
    }
  }

  /** One entry of the file-to-DOI map the PDF scanner produces. */
  datatype Entry = Entry(path: string, doi: Option<string>)

  datatype Record = Record(
    filePath: string,
    doi: Option<string>,
    title: Option<Value>,
    authors: Option<Value>,
    year: Option<Value>,
    journal: Option<Value>,
    status: Status)
  {
    function Field(f: BibField): Option<Value> {
      match f
      case Title => title
      case Authors => authors
      case Year => year
      case Journal => journal
    }

    predicate NoBibFields() {
      forall f: BibField :: Field(f).None?
    }
  }

  /** Python truthiness of the extracted DOI: `None` and `""` are falsy. */
  predicate DoiTruthy(doi: Option<string>) {
    doi.Some? && doi.value != ""
  }

  /** Python truthiness of the fetch result: `None` and `{}` are falsy. */
  predicate MetadataTruthy(md: Option<Metadata>) {
    md.Some? && |md.value| > 0
  }

  /** The value `dict.get` yields for a key of a metadata dictionary. */
  function Lookup(md: Metadata, f: BibField): Option<Value> {
    if f in md then md[f] else None
  }

  /** The fresh record: every bibliographic field `None`, status `Pending`. */
  function NewRecord(e: Entry): Record {
    Record(e.path, e.doi, None, None, None, None, Pending)
  }

  /** `record.update(metadata)`: a key present in the dictionary overwrites
      the field, an absent key leaves it as it was. */
  function Update(r: Record, md: Metadata): (u: Record)
    ensures u.filePath == r.filePath && u.doi == r.doi && u.status == r.status
    ensures forall f: BibField :: u.Field(f) == (if f in md then md[f] else r.Field(f))
  {
    r.(title := if Title in md then md[Title] else r.title,
       authors := if Authors in md then md[Authors] else r.authors,
       year := if Year in md then md[Year] else r.year,
       journal := if Journal in md then md[Journal] else r.journal)
  }

  /** The status transition applied to a fresh record. */
  function Resolve(r: Record, fetch: Fetcher): Record {
    if DoiTruthy(r.doi) then
      var md := fetch(r.doi.value);
      if MetadataTruthy(md) then
        Update(r, md.value).(status := Success)
      else
        r.(status := MetadataNotFound)
    else
      r.(status := DoiNotFound)
  }

  /** Status and fields agree: the record is terminal, a DOI-less record is
      `DOI Not Found`, and only a `Success` carries bibliographic data. */
  predicate Consistent(r: Record) {
    match r.status
    case Pending => false
    case Success => DoiTruthy(r.doi)
    case MetadataNotFound => DoiTruthy(r.doi) && r.NoBibFields()
    case DoiNotFound => !DoiTruthy(r.doi) && r.NoBibFields()
  }

  /** The outcome record for one entry of the file-to-DOI map. */
  function Classify(e: Entry, fetch: Fetcher): (r: Record)
    ensures r.filePath == e.path && r.doi == e.doi
    ensures r.status.Terminal()
    ensures Consistent(r)
    ensures r.status == DoiNotFound <==> !DoiTruthy(e.doi)
    ensures r.status == Success <==> DoiTruthy(e.doi) && MetadataTruthy(fetch(e.doi.value))
  {
    Resolve(NewRecord(e), fetch)
  }

  /** The outcome table, stated field by field and independently of how
      `Classify` builds its record. */
  ghost predicate WellClassified(e: Entry, fetch: Fetcher, r: Record) {
    && r.filePath == e.path
    && r.doi == e.doi
    && (!DoiTruthy(e.doi) ==> r.status == DoiNotFound && r.NoBibFields())
    && (DoiTruthy(e.doi) && !MetadataTruthy(fetch(e.doi.value)) ==>
          r.status == MetadataNotFound && r.NoBibFields())
    && (DoiTruthy(e.doi) && MetadataTruthy(fetch(e.doi.value)) ==>
          r.status == Success
          && forall f: BibField :: r.Field(f) == Lookup(fetch(e.doi.value).value, f))
  }

  lemma FieldsDetermineRecord(a: Record, b: Record)
    requires a.filePath == b.filePath && a.doi == b.doi && a.status == b.status
    requires forall f: BibField :: a.Field(f) == b.Field(f)
    ensures a == b
  {
    assert a.title == a.Field(Title) == b.Field(Title) == b.title;
    assert a.authors == a.Field(Authors) == b.Field(Authors) == b.authors;
    assert a.year == a.Field(Year) == b.Field(Year) == b.year;
    assert a.journal == a.Field(Journal) == b.Field(Journal) == b.journal;
  }

  /** `Classify` returns exactly the record the outcome table describes:
      it meets the table, and the table admits no other record. */
  lemma ClassifyCharacterised(e: Entry, fetch: Fetcher, r: Record)
    ensures WellClassified(e, fetch, r) <==> r == Classify(e, fetch)
  {
    var c := Classify(e, fetch);
    if DoiTruthy(e.doi) && MetadataTruthy(fetch(e.doi.value)) {
      var md := fetch(e.doi.value).value;
      forall f: BibField
        ensures c.Field(f) == Lookup(md, f)
      {
        assert NewRecord(e).Field(f) == None;
      }
    }
    assert WellClassified(e, fetch, c);
    if WellClassified(e, fetch, r) {
      FieldsDetermineRecord(r, c);
    }
  }

  /** A successful record carries exactly the bibliographic values of the
      fetched dictionary; a key the dictionary lacks stays `None`, and the
      dictionary cannot change the status. */
  lemma SuccessCopiesMetadata(e: Entry, fetch: Fetcher, f: BibField)
    requires DoiTruthy(e.doi) && MetadataTruthy(fetch(e.doi.value))
    ensures Classify(e, fetch).status == Success
    ensures Classify(e, fetch).Field(f) == Lookup(fetch(e.doi.value).value, f)
  {
    ClassifyCharacterised(e, fetch, Classify(e, fetch));
  }

  /** Without a truthy DOI the fetcher is never consulted: the outcome is the
      same whatever the fetcher would have answered. */
  lemma ClassifyIgnoresFetchWithoutDoi(e: Entry, f: Fetcher, g: Fetcher)
    requires !DoiTruthy(e.doi)
    ensures Classify(e, f) == Classify(e, g)
    ensures Classify(e, f) == Record(e.path, e.doi, None, None, None, None, DoiNotFound)
  {
  }

  /** With a truthy DOI only the fetcher's answer for that DOI matters. */
  lemma ClassifyDependsOnlyOnOwnDoi(e: Entry, f: Fetcher, g: Fetcher)
    requires DoiTruthy(e.doi) ==> f(e.doi.value) == g(e.doi.value)
    ensures Classify(e, f) == Classify(e, g)
  {
  }
}
