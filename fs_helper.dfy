/** The selection rules and the CSV projection of `src/oas/utils/fs_helper.py`: which
    files are tar balls, which archive members are documents, the member loop of
    `list_documents` and the row loop of `stream_csv`. */
module FsHelper {
  import opened PyCore
  import opened PyStr
  import opened PyPath
  import opened Types

  /** `_is_tar_ball`: a regular file whose lower-cased suffix is `.tar` and whose stem does
      not start with `_`. */
  predicate IsTarBall(e: Entry) {
    e.kind == RegularFile && Lower(Suffix(e.name)) == ".tar" && !StartsWith(Stem(e.name), "_")
  }

  /** The same rule read off the name: at least one character before a final `.tar` in any
      letter case, and no leading `_`. */
  lemma TarBallByName(e: Entry)
    ensures IsTarBall(e) <==>
      e.kind == RegularFile && |e.name| >= 5 && Lower(e.name[|e.name| - 4..]) == ".tar" && e.name[0] != '_'
  {
    if |e.name| >= 5 && Lower(e.name[|e.name| - 4..]) == ".tar" {
      TarNameHasTarSuffix(e.name);
    }
    if Lower(Suffix(e.name)) == ".tar" {
      TarSuffixIsTarName(e.name);
    }
  }

  lemma TarNameHasTarSuffix(name: string)
    requires |name| >= 5 && Lower(name[|name| - 4..]) == ".tar"
    ensures Suffix(name) == name[|name| - 4..] && Stem(name) == name[..|name| - 4]
  {
    var n := |name| - 4;
    var l := Lower(name[n..]);
    assert LowerChar(name[n]) == l[0] == '.';
    assert LowerChar(name[n + 1]) == l[1] && LowerChar(name[n + 2]) == l[2] && LowerChar(name[n + 3]) == l[3];
    assert name[n + 1..] == [name[n + 1], name[n + 2], name[n + 3]];
    SuffixOf(name, n);
  }

  lemma TarSuffixIsTarName(name: string)
    requires Lower(Suffix(name)) == ".tar"
    ensures |name| >= 5 && Lower(name[|name| - 4..]) == ".tar" && Stem(name) == name[..|name| - 4]
  {
    var i := RFindDot(name);
    assert 0 < i < |name| - 1 && Suffix(name) == name[i..];
  }

  /** Selecting tar balls ignores letter case. */
  lemma TarBallIgnoresCase(e: Entry, e': Entry)
    requires e.kind == e'.kind && SameUpToCase(e.name, e'.name)
    ensures IsTarBall(e) <==> IsTarBall(e')
  {
    SuffixStemIgnoreCase(e.name, e'.name);
    SameUpToCaseMeaning(Suffix(e.name), Suffix(e'.name));
    UnderscoreIgnoresCase(Stem(e.name), Stem(e'.name));
  }

  lemma UnderscoreIgnoresCase(a: string, b: string)
    requires SameUpToCase(a, b)
    ensures StartsWith(a, "_") <==> StartsWith(b, "_")
  {
    assert |a| == |Upper(a)| == |Upper(b)| == |b|;
    if |a| > 0 {
      assert UpperChar(a[0]) == Upper(a)[0] == Upper(b)[0] == UpperChar(b[0]);
      assert StartsWith(a, "_") <==> a[0] == '_';
      assert StartsWith(b, "_") <==> b[0] == '_';
    }
  }

  /** `list_folder_tar_balls`: the tar balls of a folder, in listing order. */
  function ListFolderTarBalls(entries: seq<Entry>): (r: seq<Entry>)
    ensures forall e <- r :: e in entries && IsTarBall(e)
    ensures forall i :: 0 <= i < |entries| && IsTarBall(entries[i]) ==> entries[i] in r
  {
    Filter(IsTarBall, entries)
  }

  /** An archive member as `tar_ball.next()` returns it: its name, whether it is a regular
      file, and what `extractfile(...).read().decode('utf-8')` gives (None when
      `extractfile` returns None). */
  datatype TarMember = TarMember(name: string, isFile: bool, extracted: Option<Outcome<string>>)

  /** `_is_pmc_file`: a regular file whose upper-cased name starts with `PMC` and ends with
      `.XML`. */
  predicate IsPmcFile(m: TarMember) {
    m.isFile && StartsWith(Upper(m.name), "PMC") && EndsWith(Upper(m.name), ".XML")
  }

  /** The same rule read off the name: the prefix and the extension cannot overlap, so a
      selected name has at least seven characters, starts with `PMC` and ends with `.XML`,
      each in any letter case. */
  lemma PmcFileByName(m: TarMember)
    ensures IsPmcFile(m) <==>
      m.isFile && |m.name| >= 7 && Upper(m.name[..3]) == "PMC" && Upper(m.name[|m.name| - 4..]) == ".XML"
  {
    var u := Upper(m.name);
    if |m.name| >= 3 {
      UpperSlice(m.name, 0, 3);
    }
    if |m.name| >= 4 {
      UpperSlice(m.name, |m.name| - 4, |m.name|);
    }
    if IsPmcFile(m) {
      assert u[..3] == "PMC" && u[|u| - 4..] == ".XML";
      assert u[0] == 'P' && u[1] == 'M' && u[2] == 'C';
      assert u[|u| - 4] == '.' && u[|u| - 3] == 'X' && u[|u| - 2] == 'M' && u[|u| - 1] == 'L';
    }
  }

  /** Selecting archive members ignores letter case. */
  lemma PmcFileIgnoresCase(m: TarMember, m': TarMember)
    requires m.isFile == m'.isFile && SameUpToCase(m.name, m'.name)
    ensures IsPmcFile(m) <==> IsPmcFile(m')
  {
  }

  /** What `list_documents` produces: the documents yielded, and the decoding error that
      stopped the generator, if any. */
  datatype Listing = Listing(docs: seq<string>, failure: Option<Exception>)

  /** The documents of the selected members that `extractfile` returns, in archive order;
      a member that fails to decode ends the listing. */
  function Documents(members: seq<TarMember>): (r: Listing)
    ensures |r.docs| <= |members|
  {
    if members == [] then Listing([], None)
    else
      var m := members[0];
      var rest := Documents(members[1..]);
      if IsPmcFile(m) && m.extracted.Some? then
        match m.extracted.value
        case Raise(e) => Listing([], Some(e))
        case Ok(doc) => Listing([doc] + rest.docs, rest.failure)
      else rest
  }

  /** The document a member contributes when it decodes. */
  function DocumentOf(m: TarMember): Option<string> {
    if IsPmcFile(m) && m.extracted.Some? && m.extracted.value.Ok? then Some(m.extracted.value.value) else None
  }

  /** A selected member whose content cannot be decoded. */
  predicate Undecodable(m: TarMember) {
    IsPmcFile(m) && m.extracted.Some? && m.extracted.value.Raise?
  }

  /** Without decoding errors the archive yields one document per selected, extractable
      member, in archive order, and nothing else. */
  lemma {:induction false} DocumentsWithoutErrors(members: seq<TarMember>)
    requires forall i :: 0 <= i < |members| ==> !Undecodable(members[i])
    ensures Documents(members) == Listing(FilterMap(DocumentOf, members), None)
  {
    if members != [] {
      assert forall i :: 0 <= i < |members| - 1 ==> members[1..][i] == members[i + 1];
      DocumentsWithoutErrors(members[1..]);
    }
  }

  lemma {:induction false} DocumentsAppend(a: seq<TarMember>, b: seq<TarMember>)
    requires Documents(a).failure.None?
    ensures Documents(a + b) == Listing(Documents(a).docs + Documents(b).docs, Documents(b).failure)
  {
    if a == [] {
      assert a + b == b;
    } else {
      assert (a + b)[0] == a[0] && (a + b)[1..] == a[1..] + b;
      assert !Undecodable(a[0]);
      DocumentsAppend(a[1..], b);
      if DocumentOf(a[0]).Some? {
        var d := DocumentOf(a[0]).value;
        assert Documents(a).docs == [d] + Documents(a[1..]).docs;
        assert Documents(a + b).docs == [d] + (Documents(a[1..]).docs + Documents(b).docs);
      }
    }
  }

  /** A decoding error ends the stream: later members are not read. */
  lemma DecodeErrorStops(members: seq<TarMember>, bad: TarMember, later: seq<TarMember>)
    requires Documents(members).failure.None? && Undecodable(bad)
    ensures Documents(members + [bad] + later) == Listing(Documents(members).docs, Some(bad.extracted.value.error))
  {
    assert members + [bad] + later == members + ([bad] + later);
    DocumentsAppend(members, [bad] + later);
    assert ([bad] + later)[0] == bad;
  }

  /** The member loop of `list_documents`. */
  method ListDocuments(members: seq<TarMember>) returns (docs: seq<string>, failure: Option<Exception>)
    ensures Listing(docs, failure) == Documents(members)
  {
    docs := [];
    failure := None;
    var i := 0;
    assert members[0..] == members;
    while i < |members|
      invariant 0 <= i <= |members|
      invariant Documents(members) == Listing(docs + Documents(members[i..]).docs, Documents(members[i..]).failure)
    {
      var info := members[i];
      assert members[i..][0] == info && members[i..][1..] == members[i + 1..];
      if IsPmcFile(info) && info.extracted.Some? {
        match info.extracted.value
        case Raise(e) =>
          failure := Some(e);
          assert docs + [] == docs;
          return;
        case Ok(document) =>
          assert docs + ([document] + Documents(members[i + 1..]).docs) == (docs + [document]) + Documents(members[i + 1..]).docs;
          docs := docs + [document];
      }
      i := i + 1;
    }
    assert members[i..] == [];
    assert docs + [] == docs;
  }

  /** `row[i]` of `stream_csv`: the article's value for `fields[i]`, or an empty cell. */
  function Projection(fields: seq<string>, article: Article): (row: Row)
    ensures |row| == |fields|
  {
    seq(|fields|, i requires 0 <= i < |fields| => if fields[i] in article then CellOf(article[fields[i]]) else Null)
  }

  /** The projection loop of `stream_csv`: a row of `len(fields)` empty cells, overwritten
      by index where the article has the field. */
  method ProjectRow(fields: seq<string>, article: Article) returns (row: Row)
    ensures |row| == |fields|
    ensures forall i :: 0 <= i < |fields| ==> row[i] == if fields[i] in article then CellOf(article[fields[i]]) else Null
    ensures row == Projection(fields, article)
  {
    var cells := new Cell[|fields|](_ => Null);
    for i := 0 to |fields|
      invariant forall j :: 0 <= j < i ==> cells[j] == if fields[j] in article then CellOf(article[fields[j]]) else Null
      invariant forall j :: i <= j < |fields| ==> cells[j] == Null
    {
      if fields[i] in article {
        cells[i] := CellOf(article[fields[i]]);
      }
    }
    row := cells[..];
  }

  /** A value reaches the row only through a listed field. */
  lemma ProjectionUsesOnlyFields(fields: seq<string>, article: Article, i: nat)
    requires i < |fields| && Projection(fields, article)[i] != Null
    ensures fields[i] in article && Projection(fields, article)[i] == CellOf(article[fields[i]])
  {
  }

  /** `stream_csv`: the rows written (the header first, then one row per article) and the
      articles yielded, which are the input unchanged. */
  method StreamCsv(fields: seq<string>, articles: seq<Article>) returns (rows: seq<Row>, yielded: seq<Article>)
    ensures |rows| == |articles| + 1
    ensures rows[0] == HeaderRow(fields)
    ensures forall k :: 0 <= k < |articles| ==> rows[k + 1] == Projection(fields, articles[k])
    ensures yielded == articles
  {
    rows := [HeaderRow(fields)];
    yielded := [];
    for k := 0 to |articles|
      invariant |rows| == k + 1 && rows[0] == HeaderRow(fields)
      invariant forall j :: 0 <= j < k ==> rows[j + 1] == Projection(fields, articles[j])
      invariant yielded == articles[..k]
    {
      var row := ProjectRow(fields, articles[k]);
      rows := rows + [row];
      yielded := yielded + [articles[k]];
    }
  }
}
