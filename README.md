# Thesis metadata extraction, modelled in Dafny

This project models the pure core of a scraper that collects thesis records from a
university repository catalog and appends them to a BibTeX file.

For each thesis, the scraper opens the thesis's full-metadata view. It reads the view's
table row by row and turns the rows into one thesis record. It then writes that record
as one bibliography entry. The model covers three pieces:

- **The row-to-record mapping** (`ThesisMetadata`, `MetadataProperties`). A row is the
  list of its cells' texts. A row is read only if it has more than one cell. Its first
  cell is matched against eight Dublin-Core-style labels:
  `dc.contributor.author`, `dc.contributor.advisor`, `dc.date.issued`, `dc.title`,
  `dc.type`, `dc.subject`, `dc.publisher` and `thesis.degree.name`.
  - For a single-valued label, a later row overwrites an earlier one.
  - `dc.subject` values accumulate in row order.
  - Unknown labels are ignored.

  The record then gets:
  - the entry type `thesis`;
  - a placeholder (`No Author`, `No Advisor`, …) for each field that is absent or empty;
  - the subjects joined with `", "`;
  - an ID made of the author's first whitespace-delimited token followed by the year,
    or `NoID` when the author or the year is missing.

  The row loop is the imperative method `FetchThesisMetadata`. It is proved equal to
  the specification `ExtractRecord`. `ExtractRecord` is defined through the reference
  functions `LastValue` and `Values`, and the lemmas are stated about it.
- **The bibliography entry** (`BibtexEntry`): the entry is keyed by the record's ID and
  has exactly eight named fields, each copied from the record. A reading-back function
  shows that nothing is lost.
- **The detail address** (`DetailLink`): the fixed host, then the catalog link, then
  `/full`. An inverse shows that the link can be recovered from the address.

Python semantics made explicit:
- Python's `None` and the empty string are kept apart (`Option<string>`). `x or default`
  treats both as absent (`PyStr.OrElse`).
- `author.split()[0]` is `PyStr.FirstToken`. It splits on the characters of Python's
  `str.isspace`. On a non-empty author made only of whitespace, Python raises
  `IndexError`. The model returns `Err(AuthorHasNoToken)` there. `StrippedRowsNeverFail`
  shows this cannot happen with stripped cells, which is how the page parser delivers
  them (`get_text(strip=True)`).
- When the last row for a label has an empty value, the field gets its placeholder, even
  if an earlier row for that label had a value (`PlaceholderWhenLastEmpty`).

## Model

| member | source | states |
|---|---|---|
| ThesisMetadata.FetchThesisMetadata | bibliofisi.py:16-55 | The row loop followed by record construction returns exactly the record `ExtractRecord` specifies for the rows, the error included |
| ThesisMetadata.BuildRecord | bibliofisi.py:43-54 | A built record has entry type `thesis`, a non-empty ID and eight non-empty fields; it fails only when both author and year are non-empty |
| ThesisMetadata.LastValueAppend | bibliofisi.py:20-40 | Over concatenated rows, the last value of a label comes from the later part when it has that label, else from the earlier part |
| ThesisMetadata.ValuesAppend | bibliofisi.py:35-36 | The subject values of concatenated rows are the concatenation of each part's values, so encounter order is kept |
| ThesisMetadata.RowAbsorbed | bibliofisi.py:20-40 | One more row sets its own label's value (or appends a subject) and leaves every other label's value unchanged |
| MetadataProperties.LastValueSpec | bibliofisi.py:25-40 | A label's collected value is `v` exactly when the last row carrying that label holds `v` |
| MetadataProperties.LastValueNoneSpec | bibliofisi.py:16-40 | A label's value stays `None` exactly when no row with more than one cell carries that label |
| MetadataProperties.UnselectedRowIgnored | bibliofisi.py:20-40 | A row no recognised label selects can be removed from anywhere in the table without changing what is collected |
| MetadataProperties.ShortRowIgnored | bibliofisi.py:21-22 | A row with zero or one cell has no effect on what is collected or on the record |
| MetadataProperties.UnknownLabelIgnored | bibliofisi.py:25-40 | A row whose first cell is none of the eight labels has no effect on what is collected or on the record |
| MetadataProperties.LastRowWins | bibliofisi.py:25-53 | When the last row carrying a single-valued label has a non-empty value, the record's field is that value |
| MetadataProperties.PlaceholderWhenAbsent | bibliofisi.py:46-53 | A single-valued label that no row carries gives the field's placeholder |
| MetadataProperties.PlaceholderWhenLastEmpty | bibliofisi.py:46-53 | An empty value in the last row carrying a label gives the placeholder, whatever earlier rows held |
| MetadataProperties.SubjectsJoined | bibliofisi.py:52 | The subject field is the subject values joined by ", " in row order, or `No Subject` when there is no subject row or only one empty one |
| ThesisMetadata.MakeId | bibliofisi.py:45 | With non-empty author and year, the ID is the author's first whitespace-delimited token followed by the year, and it fails exactly when that author is only whitespace; otherwise the ID is `NoID` |
| MetadataProperties.IdRule | bibliofisi.py:45 | With non-empty author and year, the ID is the author's first whitespace-delimited token followed by the year; otherwise it is `NoID` |
| MetadataProperties.FailsOnlyOnBlankAuthor | bibliofisi.py:45 | Extraction fails exactly when a year is present and the last author value is non-empty but only whitespace |
| MetadataProperties.StrippedRowsNeverFail | bibliofisi.py:23-45 | If every cell is stripped of surrounding whitespace, extraction always yields a record |
| MetadataProperties.JaneDoeExample | bibliofisi.py:16-55 | Author `Jane Doe`, date `2021` and title `X` give ID `Jane2021`, those three fields, and placeholders everywhere else |
| MetadataProperties.JaneDoeRecord | bibliofisi.py:43-54 | The values collected from that table build that record |
| PyStr.OrElse | bibliofisi.py:46-53 | `v or default` is non-empty exactly when `v` is a non-empty string or the default is non-empty |
| PyStr.FirstTokenSpec | bibliofisi.py:45 | `split()[0]` fails exactly on whitespace-only text; otherwise it is a non-empty, whitespace-free run preceded only by whitespace and followed by whitespace or the end |
| PyStr.FirstTokenOfTwoWords | bibliofisi.py:45 | `"Jane Doe".split()[0]` is `"Jane"` |
| PyStr.JoinEmptyIff | bibliofisi.py:52 | A join with a non-empty separator is empty exactly when there are no parts or one empty part |
| PyStr.JoinSnoc | bibliofisi.py:52 | Joining one more part appends the separator and that part, so parts keep their order |
| BibtexEntry.ToBibEntry | bibliofisi.py:60-73 | The entry is keyed by the record's ID, has the record's entry type, and has exactly the eight fields author, advisor, year, title, type, institution, subject and degree_name, in that order |
| BibtexEntry.FieldsCopied | bibliofisi.py:62-71 | Each of the eight fields holds the record's value unchanged |
| BibtexEntry.RecordRoundTrip | bibliofisi.py:60-73 | Reading the entry back by field name gives the original record: the projection loses nothing |
| DetailLink.DetailUrl | bibliofisi.py:122 | The address starts with the host, ends with `/full`, and holds the link unchanged in between |
| DetailLink.LinkOfDetailUrl | bibliofisi.py:122 | The link is recovered from its detail address |
| DetailLink.DetailUrlOfLinkOf | bibliofisi.py:122 | Every address from which a link is recovered is that link's detail address |

## Left out

- Browser driving: opening the catalog, sorting by date, clicking "next page", the fixed waits and the bounded polling waits (bibliofisi.py:10, 79-101, 139-167). These are I/O against a live page, with timing.
- HTML parsing (bibliofisi.py:12-13, 21, 23-24, 110-111). The page parser is a foreign library. The model takes the rows as lists of already-extracted, stripped cell texts.
- Serialising the entry and appending it to the file (bibliofisi.py:59, 73, 76-77). This is an external library plus file I/O. Only the projection from record to entry is modelled.
- The pagination loop and the per-link loop in `main` (bibliofisi.py:103-167). Their course depends only on what the live pages return and on exceptions raised around a global driver.
- Console messages and the catching and skipping of failed entries or pages (bibliofisi.py:98-101, 131-137, 163-165). The model returns the one failure the mapping itself can raise as `Err` instead.
- BibtexEntry.ToBibEntry: does not model any normalisation the bibliography library applies to the entry type or the keys when it stores them. The source's entry type is already lower case.
