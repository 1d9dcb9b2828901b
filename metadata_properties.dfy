/**
 * What the extraction promises about the rows it reads: which rows matter,
 * that the last occurrence of a label wins, how absent fields are filled
 * in, how subjects are joined and how the ID is formed.
 */
module MetadataProperties {
  import opened Wrappers
  import opened PyStr
  import opened ThesisMetadata

  /** `LastValue` yields `v` exactly when the last row carrying the label holds `v`. */
  lemma {:induction false} LastValueSpec(rows: seq<Row>, name: string, v: string)
    ensures LastValue(rows, name) == Some(v)
        <==> exists i :: IsLastLabelled(rows, name, i) && rows[i][1] == v
  {
    if rows != [] {
      LastValueSpec(rows[1..], name, v);
      LastValueNoneSpec(rows[1..], name);
      if LastValue(rows, name) == Some(v) {
        if LastValue(rows[1..], name).Some? {
          var i :| IsLastLabelled(rows[1..], name, i) && rows[1..][i][1] == v;
          assert IsLastLabelled(rows, name, i + 1);
        } else {
          assert IsLastLabelled(rows, name, 0);
        }
      }
      if exists i :: IsLastLabelled(rows, name, i) && rows[i][1] == v {
        var i :| IsLastLabelled(rows, name, i) && rows[i][1] == v;
        if i > 0 {
          assert IsLastLabelled(rows[1..], name, i - 1);
        } else {
          assert forall j :: 0 <= j < |rows[1..]| ==> !Labelled(rows[1..][j], name) by {
            forall j | 0 <= j < |rows[1..]| ensures !Labelled(rows[1..][j], name) {
              assert rows[1..][j] == rows[j + 1];
            }
          }
        }
      }
    }
  }

  /** `LastValue` is None exactly when no row carries the label. */
  lemma {:induction false} LastValueNoneSpec(rows: seq<Row>, name: string)
    ensures LastValue(rows, name).None?
        <==> forall i :: 0 <= i < |rows| ==> !Labelled(rows[i], name)
  {
    if rows != [] {
      LastValueNoneSpec(rows[1..], name);
      assert forall i :: 1 <= i < |rows| ==> rows[i] == rows[1..][i - 1];
    }
  }

  /** Rows that no recognised label selects change nothing, wherever they stand. */
  lemma UnselectedRowIgnored(a: seq<Row>, r: Row, b: seq<Row>)
    requires forall name :: name in KnownLabels ==> !Labelled(r, name)
    ensures Scan(a + [r] + b) == Scan(a + b)
  {
    forall name | name in KnownLabels
      ensures LastValue(a + [r] + b, name) == LastValue(a + b, name)
      ensures Values(a + [r] + b, name) == Values(a + b, name)
    {
      LastValueAppend(a + [r], b, name);
      LastValueAppend(a, [r], name);
      LastValueAppend(a, b, name);
      ValuesAppend(a + [r], b, name);
      ValuesAppend(a, [r], name);
      ValuesAppend(a, b, name);
    }
  }

  /** A row with one cell or none has no effect on the record. */
  lemma ShortRowIgnored(a: seq<Row>, r: Row, b: seq<Row>)
    requires |r| <= 1
    ensures Scan(a + [r] + b) == Scan(a + b)
    ensures ExtractRecord(a + [r] + b) == ExtractRecord(a + b)
  {
    UnselectedRowIgnored(a, r, b);
  }

  /** A row whose label is none of the eight recognised ones has no effect on the record. */
  lemma UnknownLabelIgnored(a: seq<Row>, r: Row, b: seq<Row>)
    requires |r| > 1 && r[0] !in KnownLabels
    ensures Scan(a + [r] + b) == Scan(a + b)
    ensures ExtractRecord(a + [r] + b) == ExtractRecord(a + b)
  {
    UnselectedRowIgnored(a, r, b);
  }

  // Proof step: the record's field for a single-valued label, read through `Label`.
  lemma FieldFromLastValue(rows: seq<Row>, key: Label)
    requires key != Subject
    requires ExtractRecord(rows).Ok?
    ensures Field(ExtractRecord(rows).value, key) == OrElse(LastValue(rows, key.Text()), key.Placeholder())
  {
  }

  /** When the last row carrying a single-valued label has a non-empty value, that value is the field. */
  lemma LastRowWins(rows: seq<Row>, key: Label, i: int)
    requires key != Subject
    requires IsLastLabelled(rows, key.Text(), i) && rows[i][1] != ""
    requires ExtractRecord(rows).Ok?
    ensures Field(ExtractRecord(rows).value, key) == rows[i][1]
  {
    LastValueSpec(rows, key.Text(), rows[i][1]);
    FieldFromLastValue(rows, key);
  }

  /** A single-valued label that no row carries gives its placeholder. */
  lemma PlaceholderWhenAbsent(rows: seq<Row>, key: Label)
    requires key != Subject
    requires forall i :: 0 <= i < |rows| ==> !Labelled(rows[i], key.Text())
    requires ExtractRecord(rows).Ok?
    ensures Field(ExtractRecord(rows).value, key) == key.Placeholder()
  {
    LastValueNoneSpec(rows, key.Text());
    FieldFromLastValue(rows, key);
  }

  /** An empty value in the last row carrying a label gives the placeholder, even after earlier non-empty ones. */
  lemma PlaceholderWhenLastEmpty(rows: seq<Row>, key: Label, i: int)
    requires key != Subject
    requires IsLastLabelled(rows, key.Text(), i) && rows[i][1] == ""
    requires ExtractRecord(rows).Ok?
    ensures Field(ExtractRecord(rows).value, key) == key.Placeholder()
  {
    LastValueSpec(rows, key.Text(), "");
    FieldFromLastValue(rows, key);
  }

  /**
   * The subject field is the subject values joined with ", " in row order,
   * or its placeholder when that join is empty: no subject row, or a single
   * empty one.
   */
  lemma SubjectsJoined(rows: seq<Row>)
    requires ExtractRecord(rows).Ok?
    ensures var subjects := Values(rows, SubjectLabel);
            ExtractRecord(rows).value.subject
            == if subjects == [] || subjects == [""] then NoSubject
               else Join(SubjectSeparator, subjects)
  {
    JoinEmptyIff(SubjectSeparator, Values(rows, SubjectLabel));
  }

  /**
   * The ID: with a non-empty author and year it is the author's first
   * whitespace-delimited token followed by the year, otherwise "NoID".
   */
  lemma IdRule(rows: seq<Row>)
    requires ExtractRecord(rows).Ok?
    ensures var author, year := LastValue(rows, AuthorLabel), LastValue(rows, YearLabel);
            var id := ExtractRecord(rows).value.id;
            && (Truthy(author) && Truthy(year) ==>
                  exists t :: IsFirstToken(author.value, t) && id == t + year.value)
            && (!(Truthy(author) && Truthy(year)) ==> id == NoId)
  {
    var author, year := LastValue(rows, AuthorLabel), LastValue(rows, YearLabel);
    if Truthy(author) && Truthy(year) {
      FirstTokenSpec(author.value);
      var t := FirstToken(author.value).value;
      assert IsFirstToken(author.value, t);
    }
  }

  /** With a non-empty author and year, the ID is the author's first token followed by the year. */
  lemma IdOfToken(author: string, year: string, t: string)
    requires author != "" && year != "" && FirstToken(author) == Some(t)
    ensures MakeId(Some(author), Some(year)) == Ok(t + year)
  {
  }

  /** The extraction fails only when the last author value is non-empty whitespace and a year is present. */
  lemma FailsOnlyOnBlankAuthor(rows: seq<Row>)
    ensures ExtractRecord(rows).Err?
        <==> && Truthy(LastValue(rows, YearLabel))
             && exists i :: IsLastLabelled(rows, AuthorLabel, i) && rows[i][1] != "" && AllSpace(rows[i][1])
  {
    var author := LastValue(rows, AuthorLabel);
    if author.Some? {
      LastValueSpec(rows, AuthorLabel, author.value);
    } else {
      LastValueNoneSpec(rows, AuthorLabel);
    }
  }

  /** Cells stripped of surrounding whitespace, as the page parser delivers them, never make the extraction fail. */
  lemma StrippedRowsNeverFail(rows: seq<Row>)
    requires forall i, k :: 0 <= i < |rows| && 0 <= k < |rows[i]| ==> Stripped(rows[i][k])
    ensures ExtractRecord(rows).Ok?
  {
    FailsOnlyOnBlankAuthor(rows);
  }

  /** A detail page with an author, an issue date and a title. */
  lemma JaneDoeExample(rows: seq<Row>)
    requires rows == [["dc.contributor.author", "Jane Doe"], ["dc.date.issued", "2021"], ["dc.title", "X"]]
    ensures ExtractRecord(rows)
         == Ok(ThesisRecord("thesis", "Jane" + "2021", "Jane Doe", "No Advisor", "2021", "X",
                            "No Type", "No Institution", "No Subject", "No Degree Name"))
  {
    var scanned := Scanned(Some("Jane Doe"), None, Some("2021"), Some("X"), None, [], None, None);
    assert Scan(rows) == scanned by {
      var a, b, c := rows[0], rows[1], rows[2];
      RowAbsorbed([], a);
      RowAbsorbed([a], b);
      RowAbsorbed([a, b], c);
      assert [] + [a] == [a] && [a] + [b] == [a, b] && [a, b] + [c] == rows;
    }
    JaneDoeRecord(scanned);
  }

  /** The record-building half of `JaneDoeExample`: the values collected from that table build that record. */
  lemma JaneDoeRecord(s: Scanned)
    requires s == Scanned(Some("Jane Doe"), None, Some("2021"), Some("X"), None, [], None, None)
    ensures BuildRecord(s)
         == Ok(ThesisRecord("thesis", "Jane" + "2021", "Jane Doe", "No Advisor", "2021", "X",
                            "No Type", "No Institution", "No Subject", "No Degree Name"))
  {
    FirstTokenOfTwoWords();
    IdOfToken("Jane Doe", "2021", "Jane");
  }
}
