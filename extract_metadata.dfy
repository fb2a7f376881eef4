/** The stand-alone script `code/extract_metadata.py`: one CSV row of metadata per `.nxml`
    file of a folder, and one error row per file that could not be read or parsed. */
module ExtractMetadata {
  import opened PyCore
  import opened PyStr
  import opened PyPath
  import opened Jats
  import opened Types
  import opened ExtractHelper

  /** The `JATS` named tuple, field by field. Unlike the helper module's extractors, the
      ISSN, title and authors are plain strings that may be empty. */
  datatype JatsRecord = JatsRecord(
    id: Option<string>, doi: Option<string>, issn: string, journal: Option<string>,
    volume: Option<string>, issue: Option<string>, year: int, category: Option<string>,
    referenceCount: nat, title: string, authors: string)

  /** `parse_jats`: read, parse with `etree.fromstring` (no bytes retry), then extract. The
      ISSN join runs before the year, so a text-less ISSN node is the error reported when
      both fail. */
  function ParseJats(content: Outcome<string>, p: XmlParser): (r: Outcome<JatsRecord>)
    ensures r.Ok? <==> (content.Ok? && p.fromString(content.value).Ok?
      && (forall i :: 0 <= i < |p.fromString(content.value).value.issns| ==> p.fromString(content.value).value.issns[i].text.Some?)
      && ExtractYear(p.fromString(content.value).value).Ok?)
    ensures content.Raise? ==> r == Raise(content.error)
    ensures content.Ok? && p.fromString(content.value).Raise? ==> r == Raise(p.fromString(content.value).error)
    ensures content.Ok? && p.fromString(content.value).Ok?
      && (exists i :: 0 <= i < |p.fromString(content.value).value.issns| && p.fromString(content.value).value.issns[i].text.None?)
      ==> r == Raise(JoinedNone)
    ensures content.Ok? && p.fromString(content.value).Ok?
      && (forall i :: 0 <= i < |p.fromString(content.value).value.issns| ==> p.fromString(content.value).value.issns[i].text.Some?)
      && ExtractYear(p.fromString(content.value).value).Raise?
      ==> r == Raise(ExtractYear(p.fromString(content.value).value).error)
    ensures r.Ok? ==> r.value == RecordOf(p.fromString(content.value).value, ExtractYear(p.fromString(content.value).value).value)
  {
    if content.Raise? then Raise(content.error)
    else
      match p.fromString(content.value)
      case Raise(e) => Raise(e)
      case Ok(root) =>
        match JoinAll(";", NodeTexts(root.issns))
        case Raise(e) => Raise(e)
        case Ok(_) =>
          match ExtractYear(root)
          case Raise(e) => Raise(e)
          case Ok(year) => Ok(RecordOf(root, year))
  }

  /** The record of a parsed document whose year is `year`. */
  function RecordOf(root: Doc, year: int): JatsRecord {
    JatsRecord(FirstText(root.pmcIds), FirstText(root.dois), Join(";", Somes(NodeTexts(root.issns))),
      FirstText(root.journalTitles), FirstText(root.volumes), FirstText(root.issues), year,
      FirstText(root.subjects), |root.references|, Collapse(Flatten(root.titleTexts)),
      Join(";", AuthorNames(root.authors)))
  }

  /** What a parsed record holds: the year is the least listed year, the reference count is
      the number of references, the title is collapsed with the title's words, and the
      authors are empty exactly when no author is listed. */
  lemma RecordMeaning(content: Outcome<string>, p: XmlParser)
    requires ParseJats(content, p).Ok?
    ensures var root := p.fromString(content.value).value;
      var j := ParseJats(content, p).value;
      && (forall i :: 0 <= i < |root.yearTexts| ==> j.year <= PyInt.ParseInt(root.yearTexts[i]).value)
      && j.referenceCount == |root.references|
      && IsCollapsed(j.title) && Split(j.title) == Split(Flatten(root.titleTexts))
      && (j.authors == "" <==> root.authors == [])
      && j.doi == FirstText(root.dois) && j.category == FirstText(root.subjects)
  {
    var root := p.fromString(content.value).value;
    CollapseMeaning(Flatten(root.titleTexts));
    var names := AuthorNames(root.authors);
    JoinNoOuterSpace(names);
    assert |names| == 1 ==> names[0] != "";
  }

  /** A missing year or a text-less ISSN node makes the file an error row. */
  lemma MissingYearOrIssnFails(content: Outcome<string>, p: XmlParser)
    requires content.Ok? && p.fromString(content.value).Ok?
    requires p.fromString(content.value).value.yearTexts == []
      || exists i :: 0 <= i < |p.fromString(content.value).value.issns| && p.fromString(content.value).value.issns[i].text.None?
    ensures ParseJats(content, p).Raise?
  {
  }

  /** The CSV header, in the order of the named tuple. */
  const MetadataHeader: seq<string> := ["id", "doi", "issn", "journal", "volume", "issue", "year", "category",
    "referenceCount", "title", "authors"]

  /** The cell of a record under the header name `name`. */
  function FieldOf(j: JatsRecord, name: string): Cell {
    if name == "id" then OptText(j.id)
    else if name == "doi" then OptText(j.doi)
    else if name == "issn" then Text(j.issn)
    else if name == "journal" then OptText(j.journal)
    else if name == "volume" then OptText(j.volume)
    else if name == "issue" then OptText(j.issue)
    else if name == "year" then Number(j.year)
    else if name == "category" then OptText(j.category)
    else if name == "referenceCount" then Number(j.referenceCount)
    else if name == "title" then Text(j.title)
    else if name == "authors" then Text(j.authors)
    else Null
  }

  /** The data row of a record: every cell sits under the header naming its field. */
  function RecordRow(j: JatsRecord): (r: Row)
    ensures |r| == |MetadataHeader| && forall i :: 0 <= i < |r| ==> r[i] == FieldOf(j, MetadataHeader[i])
  {
    [OptText(j.id), OptText(j.doi), Text(j.issn), OptText(j.journal), OptText(j.volume), OptText(j.issue),
      Number(j.year), OptText(j.category), Number(j.referenceCount), Text(j.title), Text(j.authors)]
  }

  /** The loop's file filter: a regular file whose lower-cased suffix is `.nxml`. */
  predicate IsNxmlFile(e: Entry) {
    e.kind == RegularFile && Lower(Suffix(e.name)) == ".nxml"
  }

  /** The data row of one directory entry, if it is an `.nxml` file that parses. */
  function DataOf(p: XmlParser): Entry -> Option<Row> {
    e => if IsNxmlFile(e) && ParseJats(e.content, p).Ok? then Some(RecordRow(ParseJats(e.content, p).value)) else None
  }

  /** The error entry of one directory entry, if it is an `.nxml` file that fails. */
  function ErrorOf(p: XmlParser): Entry -> Option<(string, Exception)> {
    e => if IsNxmlFile(e) && ParseJats(e.content, p).Raise? then Some((Stem(e.name), ParseJats(e.content, p).error)) else None
  }

  /** Every `.nxml` file gives exactly one data row or one error entry, and nothing else
      does. */
  lemma {:induction false} RoutingPartition(entries: seq<Entry>, p: XmlParser)
    ensures |FilterMap(DataOf(p), entries)| + |FilterMap(ErrorOf(p), entries)| == |Filter(IsNxmlFile, entries)|
  {
    if entries != [] {
      var e := entries[0];
      assert entries == [e] + entries[1..];
      RoutingPartition(entries[1..], p);
      FilterMapAppend(DataOf(p), [e], entries[1..]);
      FilterMapAppend(ErrorOf(p), [e], entries[1..]);
      FilterAppend(IsNxmlFile, [e], entries[1..]);
    }
  }

  /** One more directory entry adds at most its own row or error entry, and counts
      once when it is an `.nxml` file. */
  lemma RoutingStep(entries: seq<Entry>, k: nat, p: XmlParser)
    requires k < |entries|
    ensures var e := entries[k]; var jats := ParseJats(e.content, p);
      FilterMap(DataOf(p), entries[..k + 1]) == FilterMap(DataOf(p), entries[..k])
        + if IsNxmlFile(e) && jats.Ok? then [RecordRow(jats.value)] else []
    ensures var e := entries[k]; var jats := ParseJats(e.content, p);
      FilterMap(ErrorOf(p), entries[..k + 1]) == FilterMap(ErrorOf(p), entries[..k])
        + if IsNxmlFile(e) && jats.Raise? then [(Stem(e.name), jats.error)] else []
    ensures |Filter(IsNxmlFile, entries[..k + 1])| == |Filter(IsNxmlFile, entries[..k])| + if IsNxmlFile(entries[k]) then 1 else 0
  {
    var e := entries[k];
    assert entries[..k + 1] == entries[..k] + [e];
    FilterMapSnoc(DataOf(p), entries[..k], e);
    FilterMapSnoc(ErrorOf(p), entries[..k], e);
    FilterAppend(IsNxmlFile, entries[..k], [e]);
  }

  /** `extract_metadata`: the CSV rows (header first, then the data rows in listing order),
      the error entries in encounter order, and the final value of the counter `i`, which
      starts at 1 and counts the `.nxml` files. */
  method ExtractMetadata(entries: seq<Entry>, p: XmlParser) returns (rows: seq<Row>, errors: seq<(string, Exception)>, i: int)
    ensures |rows| >= 1 && rows[0] == HeaderRow(MetadataHeader)
    ensures rows[1..] == FilterMap(DataOf(p), entries)
    ensures errors == FilterMap(ErrorOf(p), entries)
    ensures i == 1 + |Filter(IsNxmlFile, entries)|
  {
    var data: seq<Row> := [];
    errors := [];
    i := 1;
    for k := 0 to |entries|
      invariant data == FilterMap(DataOf(p), entries[..k])
      invariant errors == FilterMap(ErrorOf(p), entries[..k])
      invariant i == 1 + |Filter(IsNxmlFile, entries[..k])|
    {
      var e := entries[k];
      RoutingStep(entries, k, p);
      if IsNxmlFile(e) {
        i := i + 1;
        var jats := ParseJats(e.content, p);
        if jats.Ok? {
          data := data + [RecordRow(jats.value)];
        } else {
          errors := errors + [(Stem(e.name), jats.error)];
        }
      }
    }
    assert entries[..|entries|] == entries;
    rows := [HeaderRow(MetadataHeader)] + data;
  }

  /** `write_errors`: the header `PMCID, exception`, then one row per error in order. */
  method WriteErrors(errors: seq<(string, Exception)>) returns (rows: seq<Row>)
    ensures |rows| == |errors| + 1 && rows[0] == HeaderRow(["PMCID", "exception"])
    ensures forall k :: 0 <= k < |errors| ==> rows[k + 1] == [Text(errors[k].0), Failure(errors[k].1)]
  {
    rows := [HeaderRow(["PMCID", "exception"])];
    for k := 0 to |errors|
      invariant |rows| == k + 1 && rows[0] == HeaderRow(["PMCID", "exception"])
      invariant forall j :: 0 <= j < k ==> rows[j + 1] == [Text(errors[j].0), Failure(errors[j].1)]
    {
      rows := rows + [[Text(errors[k].0), Failure(errors[k].1)]];
    }
  }
}
