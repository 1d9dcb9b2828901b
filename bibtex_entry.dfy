/**
 * The bibliography entry written for one thesis record: keyed by the
 * record's ID, of the record's entry type, with exactly eight fields
 * copied from the record. Serialising it to the file is not modelled.
 */
module BibtexEntry {
  import opened Wrappers
  import opened ThesisMetadata

  /** An entry: its citation key, its type, and its fields in order. */
  datatype BibEntry = BibEntry(key: string, entryType: string, fields: seq<(string, string)>)

  /** The names of the eight fields, in the order they are written. */
  const FieldNames: seq<string> :=
    ["author", "advisor", "year", "title", "type", "institution", "subject", "degree_name"]

  /** The value stored under `name`, the first one if several share it. */
  function Lookup(fields: seq<(string, string)>, name: string): (r: Option<string>)
    ensures r.Some? <==> exists k :: 0 <= k < |fields| && fields[k].0 == name
  {
    if fields == [] then None
    else if fields[0].0 == name then Some(fields[0].1)
    else Lookup(fields[1..], name)
  }

  /** In fields with pairwise distinct names, `Lookup` finds each field by its name. */
  lemma {:induction false} LookupDistinct(fields: seq<(string, string)>, k: int)
    requires forall i, j :: 0 <= i < j < |fields| ==> fields[i].0 != fields[j].0
    requires 0 <= k < |fields|
    ensures Lookup(fields, fields[k].0) == Some(fields[k].1)
  {
    if k > 0 {
      LookupDistinct(fields[1..], k - 1);
    }
  }

  /** No two of the eight field names are the same. */
  lemma FieldNamesDistinct()
    ensures forall i, j :: 0 <= i < j < |FieldNames| ==> FieldNames[i] != FieldNames[j]
  {
  }

  /** The entry built for a record. */
  function ToBibEntry(rec: ThesisRecord): (e: BibEntry)
    ensures e.key == rec.id && e.entryType == rec.entryType
    ensures |e.fields| == |FieldNames|
    ensures forall k :: 0 <= k < |FieldNames| ==> e.fields[k].0 == FieldNames[k]
  {
    BibEntry(rec.id, rec.entryType, [
      ("author", rec.author),
      ("advisor", rec.advisor),
      ("year", rec.year),
      ("title", rec.title),
      ("type", rec.docType),
      ("institution", rec.institution),
      ("subject", rec.subject),
      ("degree_name", rec.degreeName)])
  }

  /** Reads a record back from an entry by field name; None if a field is missing. */
  function FromBibEntry(e: BibEntry): Option<ThesisRecord>
  {
    match (Lookup(e.fields, "author"), Lookup(e.fields, "advisor"), Lookup(e.fields, "year"),
           Lookup(e.fields, "title"), Lookup(e.fields, "type"), Lookup(e.fields, "institution"),
           Lookup(e.fields, "subject"), Lookup(e.fields, "degree_name"))
    case (Some(author), Some(advisor), Some(year), Some(title), Some(docType), Some(institution),
          Some(subject), Some(degreeName)) =>
      Some(ThesisRecord(e.entryType, e.key, author, advisor, year, title, docType, institution,
                        subject, degreeName))
    case _ => None
  }

  /** Each field of the entry holds the record's value unchanged, under its own name. */
  lemma FieldsCopied(rec: ThesisRecord)
    ensures var fields := ToBibEntry(rec).fields;
            && Lookup(fields, "author") == Some(rec.author)
            && Lookup(fields, "advisor") == Some(rec.advisor)
            && Lookup(fields, "year") == Some(rec.year)
            && Lookup(fields, "title") == Some(rec.title)
            && Lookup(fields, "type") == Some(rec.docType)
            && Lookup(fields, "institution") == Some(rec.institution)
            && Lookup(fields, "subject") == Some(rec.subject)
            && Lookup(fields, "degree_name") == Some(rec.degreeName)
  {
    var fields := ToBibEntry(rec).fields;
    FieldNamesDistinct();
    LookupDistinct(fields, 0);
    LookupDistinct(fields, 1);
    LookupDistinct(fields, 2);
    LookupDistinct(fields, 3);
    LookupDistinct(fields, 4);
    LookupDistinct(fields, 5);
    LookupDistinct(fields, 6);
    LookupDistinct(fields, 7);
  }

  /** Nothing of the record is lost in the entry: it can be read back whole. */
  lemma RecordRoundTrip(rec: ThesisRecord)
    ensures FromBibEntry(ToBibEntry(rec)) == Some(rec)
  {
    FieldsCopied(rec);
  }
}
