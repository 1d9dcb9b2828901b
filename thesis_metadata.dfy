/**
 * The conversion of a thesis detail page's metadata table into one thesis
 * record. A row is the list of its cells' texts, already stripped of
 * surrounding whitespace; only the first two cells of a row are read.
 */
module ThesisMetadata {
  import opened Wrappers
  import opened PyStr

  type Row = seq<string>

  // The Dublin-Core-style labels the extractor recognises.
  const AuthorLabel: string := "dc.contributor.author"
  const AdvisorLabel: string := "dc.contributor.advisor"
  const YearLabel: string := "dc.date.issued"
  const TitleLabel: string := "dc.title"
  const TypeLabel: string := "dc.type"
  const SubjectLabel: string := "dc.subject"
  const InstitutionLabel: string := "dc.publisher"
  const DegreeNameLabel: string := "thesis.degree.name"

  const KnownLabels: set<string> :=
    {AuthorLabel, AdvisorLabel, YearLabel, TitleLabel, TypeLabel, SubjectLabel, InstitutionLabel, DegreeNameLabel}

  const EntryType: string := "thesis"
  const NoId: string := "NoID"
  const SubjectSeparator: string := ", "

  // The texts that stand in for an absent or empty field.
  const NoAuthor: string := "No Author"
  const NoAdvisor: string := "No Advisor"
  const NoYear: string := "No Year"
  const NoTitle: string := "No Title"
  const NoType: string := "No Type"
  const NoInstitution: string := "No Institution"
  const NoSubject: string := "No Subject"
  const NoDegreeName: string := "No Degree Name"

  /** The eight recognised labels, named for the field each fills. */
  datatype Label = Author | Advisor | Year | Title | DocType | Subject | Institution | DegreeName
  {
    /** The text of the label's first cell. */
    function Text(): string
    {
      match this
      case Author => AuthorLabel
      case Advisor => AdvisorLabel
      case Year => YearLabel
      case Title => TitleLabel
      case DocType => TypeLabel
      case Subject => SubjectLabel
      case Institution => InstitutionLabel
      case DegreeName => DegreeNameLabel
    }

    /** The text that stands in for the field when it is absent or empty. */
    function Placeholder(): string
    {
      match this
      case Author => NoAuthor
      case Advisor => NoAdvisor
      case Year => NoYear
      case Title => NoTitle
      case DocType => NoType
      case Subject => NoSubject
      case Institution => NoInstitution
      case DegreeName => NoDegreeName
    }
  }

  /** The row is read (it has more than one cell) and its first cell is `name`. */
  predicate Labelled(row: Row, name: string)
  {
    |row| > 1 && row[0] == name
  }

  /** Row `i` is the last row of `rows` that carries `name`. */
  ghost predicate IsLastLabelled(rows: seq<Row>, name: string, i: int)
  {
    0 <= i < |rows| && Labelled(rows[i], name)
    && forall j :: i < j < |rows| ==> !Labelled(rows[j], name)
  }

  /** The value of the last row carrying `name`, or None when no row does. */
  function LastValue(rows: seq<Row>, name: string): Option<string>
  {
    if rows == [] then None
    else
      match LastValue(rows[1..], name)
      case Some(v) => Some(v)
      case None => if Labelled(rows[0], name) then Some(rows[0][1]) else None
  }

  /** The values of all rows carrying `name`, in the order the rows come. */
  function Values(rows: seq<Row>, name: string): seq<string>
  {
    if rows == [] then []
    else (if Labelled(rows[0], name) then [rows[0][1]] else []) + Values(rows[1..], name)
  }

  /** What the row loop has collected: `None` where Python still holds `None`. */
  datatype Scanned = Scanned(
    author: Option<string>,
    advisor: Option<string>,
    year: Option<string>,
    title: Option<string>,
    docType: Option<string>,
    subjects: seq<string>,
    institution: Option<string>,
    degreeName: Option<string>)

  /** The reference meaning of the row loop: last occurrence wins, subjects accumulate. */
  function Scan(rows: seq<Row>): Scanned
  {
    Scanned(
      LastValue(rows, AuthorLabel),
      LastValue(rows, AdvisorLabel),
      LastValue(rows, YearLabel),
      LastValue(rows, TitleLabel),
      LastValue(rows, TypeLabel),
      Values(rows, SubjectLabel),
      LastValue(rows, InstitutionLabel),
      LastValue(rows, DegreeNameLabel))
  }

  /** The record the extractor returns; every field is a string. */
  datatype ThesisRecord = ThesisRecord(
    entryType: string,
    id: string,
    author: string,
    advisor: string,
    year: string,
    title: string,
    docType: string,
    institution: string,
    subject: string,
    degreeName: string)

  /** `author.split()[0]` raises IndexError when the author is whitespace only. */
  datatype ExtractError = AuthorHasNoToken

  /** The field of `rec` that `key` fills. */
  function Field(rec: ThesisRecord, key: Label): string
  {
    match key
    case Author => rec.author
    case Advisor => rec.advisor
    case Year => rec.year
    case Title => rec.title
    case DocType => rec.docType
    case Subject => rec.subject
    case Institution => rec.institution
    case DegreeName => rec.degreeName
  }

  /**
   * The ID: the author's first whitespace-delimited token followed by the
   * year when both are non-empty, "NoID" otherwise.
   */
  function MakeId(author: Option<string>, year: Option<string>): (r: Result<string, ExtractError>)
    ensures r.Err? <==> Truthy(author) && Truthy(year) && AllSpace(author.value)
    ensures Truthy(author) && Truthy(year) && !AllSpace(author.value) ==>
              exists t :: IsFirstToken(author.value, t) && r == Ok(t + year.value)
    ensures !(Truthy(author) && Truthy(year)) ==> r == Ok(NoId)
  {
    if Truthy(author) && Truthy(year) then
      FirstTokenSpec(author.value);
      match FirstToken(author.value)
      case Some(t) => Ok(t + year.value)
      case None => Err(AuthorHasNoToken)
    else Ok(NoId)
  }

  /**
   * Builds the record from what the row loop collected: fixed entry type,
   * placeholders for absent or empty fields, subjects joined, and the ID.
   */
  function BuildRecord(s: Scanned): (r: Result<ThesisRecord, ExtractError>)
    ensures r.Err? ==> Truthy(s.author) && Truthy(s.year)
    ensures r.Ok? ==> r.value.entryType == EntryType && r.value.id != ""
    ensures r.Ok? ==> && r.value.author != "" && r.value.advisor != "" && r.value.year != ""
                      && r.value.title != "" && r.value.docType != "" && r.value.institution != ""
                      && r.value.subject != "" && r.value.degreeName != ""
  {
    match MakeId(s.author, s.year)
    case Err(e) => Err(e)
    case Ok(id) =>
      Ok(ThesisRecord(
        EntryType,
        id,
        OrElse(s.author, NoAuthor),
        OrElse(s.advisor, NoAdvisor),
        OrElse(s.year, NoYear),
        OrElse(s.title, NoTitle),
        OrElse(s.docType, NoType),
        OrElse(s.institution, NoInstitution),
        OrElse(Some(Join(SubjectSeparator, s.subjects)), NoSubject),
        OrElse(s.degreeName, NoDegreeName)))
  }

  /** The specification of the whole extraction. */
  function ExtractRecord(rows: seq<Row>): Result<ThesisRecord, ExtractError>
  {
    BuildRecord(Scan(rows))
  }

  /**
   * The extractor: walks the rows once, overwriting single-valued fields
   * and appending subjects, then builds the record.
   */
  method FetchThesisMetadata(rows: seq<Row>) returns (result: Result<ThesisRecord, ExtractError>)
    ensures result == ExtractRecord(rows)
  {
    var author, advisor, year, title, docType, institution, degreeName
      : Option<string> := None, None, None, None, None, None, None;
    var subject: seq<string> := [];
    for i := 0 to |rows|
      invariant author == LastValue(rows[..i], AuthorLabel)
      invariant advisor == LastValue(rows[..i], AdvisorLabel)
      invariant year == LastValue(rows[..i], YearLabel)
      invariant title == LastValue(rows[..i], TitleLabel)
      invariant docType == LastValue(rows[..i], TypeLabel)
      invariant institution == LastValue(rows[..i], InstitutionLabel)
      invariant degreeName == LastValue(rows[..i], DegreeNameLabel)
      invariant subject == Values(rows[..i], SubjectLabel)
    {
      var cells := rows[i];
      if |cells| > 1 {
        var field, value := cells[0], cells[1];
        if field == AuthorLabel {
          author := Some(value);
        } else if field == AdvisorLabel {
          advisor := Some(value);
        } else if field == YearLabel {
          year := Some(value);
        } else if field == TitleLabel {
          title := Some(value);
        } else if field == TypeLabel {
          docType := Some(value);
        } else if field == SubjectLabel {
          subject := subject + [value];
        } else if field == InstitutionLabel {
          institution := Some(value);
        } else if field == DegreeNameLabel {
          degreeName := Some(value);
        }
      }
      assert rows[..i + 1] == rows[..i] + [cells];
      RowAbsorbed(rows[..i], cells);
    }
    assert rows[..|rows|] == rows;
    result := BuildRecord(Scanned(author, advisor, year, title, docType, subject, institution, degreeName));
  }

  // ---------------------------------------------------------------------
  // The reference functions over concatenated rows

  /** Over concatenated rows the later part decides, and the earlier part only where the later has no such row. */
  lemma {:induction false} LastValueAppend(a: seq<Row>, b: seq<Row>, name: string)
    ensures LastValue(a + b, name)
         == if LastValue(b, name).Some? then LastValue(b, name) else LastValue(a, name)
  {
    if a == [] {
      assert a + b == b;
    } else {
      assert (a + b)[1..] == a[1..] + b;
      LastValueAppend(a[1..], b, name);
    }
  }

  /** Values of concatenated rows are the concatenated values: encounter order is kept. */
  lemma {:induction false} ValuesAppend(a: seq<Row>, b: seq<Row>, name: string)
    ensures Values(a + b, name) == Values(a, name) + Values(b, name)
  {
    if a == [] {
      assert a + b == b;
    } else {
      assert (a + b)[1..] == a[1..] + b;
      ValuesAppend(a[1..], b, name);
    }
  }

  /** One more row overwrites the value of its own label and leaves every other label alone. */
  lemma RowAbsorbed(a: seq<Row>, r: Row)
    ensures forall name :: LastValue(a + [r], name)
                         == if Labelled(r, name) then Some(r[1]) else LastValue(a, name)
    ensures forall name :: Values(a + [r], name)
                         == Values(a, name) + (if Labelled(r, name) then [r[1]] else [])
  {
    forall name
      ensures LastValue(a + [r], name)
           == if Labelled(r, name) then Some(r[1]) else LastValue(a, name)
      ensures Values(a + [r], name)
           == Values(a, name) + (if Labelled(r, name) then [r[1]] else [])
    {
      LastValueAppend(a, [r], name);
      ValuesAppend(a, [r], name);
    }
  }
}
