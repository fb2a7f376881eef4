/** The per-document pipeline of `src/oas/utils/pipeline_helper.py`: parse each document,
    run every named extractor with its failures swallowed, keep the fields that produced a
    value, and pass on only non-empty articles. */
module PipelineHelper {
  import opened PyCore
  import opened Jats
  import opened Types

  /** `_parse_xml`: parse the text; only when that raises a `ValueError` (an encoding
      declaration in a `str`), parse its UTF-8 bytes instead. */
  function ParseXml(xml: string, p: XmlParser): (r: Outcome<Doc>)
    ensures p.fromString(xml).Ok? ==> r == p.fromString(xml)
    ensures p.fromString(xml).Raise? && IsValueError(p.fromString(xml).error) ==> r == p.fromBytes(xml)
    ensures r != p.fromString(xml) ==> p.fromString(xml).Raise? && IsValueError(p.fromString(xml).error)
  {
    match p.fromString(xml)
    case Ok(root) => Ok(root)
    case Raise(e) => if IsValueError(e) then p.fromBytes(xml) else Raise(e)
  }

  /** `_parse_xml_safe`: any exception becomes None. */
  function ParseXmlSafe(document: string, p: XmlParser): (r: Option<Doc>)
    ensures r.Some? <==> ParseXml(document, p).Ok?
    ensures r.Some? ==> r.value == ParseXml(document, p).value
  {
    match ParseXml(document, p)
    case Ok(root) => Some(root)
    case Raise(_) => None
  }

  /** `_extractor_safe`: the extractor's value, with an exception turned into None. */
  function ExtractorSafe(e: Extractor, root: Doc): (r: Option<Value>)
    ensures r.Some? <==> e(root).Ok? && e(root).value.Some?
    ensures r.Some? ==> r.value == e(root).value.value
  {
    match e(root)
    case Ok(v) => v
    case Raise(_) => None
  }

  /** The items of a `Dict[str, Extractor]`, in insertion order. */
  type Fields = seq<(string, Extractor)>

  /** A dictionary never holds a name twice. */
  predicate DistinctNames(fields: Fields) {
    forall i, j :: 0 <= i < j < |fields| ==> fields[i].0 != fields[j].0
  }

  /** Whether the `i`-th field yields a value on `root`. */
  predicate Yields(fields: Fields, i: int, root: Doc)
    requires 0 <= i < |fields|
  {
    ExtractorSafe(fields[i].1, root).Some?
  }

  /** The fields of one parsed document: exactly the names whose extractor returned a value
      without raising, each mapped to that value unmodified. */
  function Extracted(fields: Fields, root: Doc): (art: Article)
    requires DistinctNames(fields)
    ensures forall name :: name in art <==> exists i :: 0 <= i < |fields| && fields[i].0 == name && Yields(fields, i, root)
    ensures forall i :: 0 <= i < |fields| && Yields(fields, i, root) ==> art[fields[i].0] == fields[i].1(root).value.value
  {
    map i | 0 <= i < |fields| && Yields(fields, i, root) :: fields[i].0 := ExtractorSafe(fields[i].1, root).value
  }

  /** An extractor that raises loses only its own field; every other field is unaffected. */
  lemma RaisingExtractorDropsOnlyItsField(fields: Fields, root: Doc, i: nat, e: Extractor)
    requires DistinctNames(fields) && i < |fields|
    requires e(root).Raise?
    ensures DistinctNames(fields[i := (fields[i].0, e)])
    ensures Extracted(fields[i := (fields[i].0, e)], root) == Extracted(fields, root) - {fields[i].0}
  {
    var g := fields[i := (fields[i].0, e)];
    ReplacedDistinct(fields, i, e);
    var a := Extracted(g, root);
    var b := Extracted(fields, root) - {fields[i].0};
    ReplacedKeys(fields, root, i, e);
    forall name | name in a
      ensures a[name] == b[name]
    {
      ReplacedValue(fields, root, i, e, name);
    }
    assert a.Keys == b.Keys;
  }

  lemma ReplacedDistinct(fields: Fields, i: nat, e: Extractor)
    requires DistinctNames(fields) && i < |fields|
    ensures DistinctNames(fields[i := (fields[i].0, e)])
  {
    var g := fields[i := (fields[i].0, e)];
    assert forall j :: 0 <= j < |g| ==> g[j].0 == fields[j].0;
  }

  lemma ReplacedKeys(fields: Fields, root: Doc, i: nat, e: Extractor)
    requires DistinctNames(fields) && i < |fields|
    requires e(root).Raise?
    requires DistinctNames(fields[i := (fields[i].0, e)])
    ensures Extracted(fields[i := (fields[i].0, e)], root).Keys == Extracted(fields, root).Keys - {fields[i].0}
  {
    var g := fields[i := (fields[i].0, e)];
    var a := Extracted(g, root);
    var b := Extracted(fields, root);
    assert !Yields(g, i, root);
    forall name | name in a
      ensures name in b && name != fields[i].0
    {
      var j :| 0 <= j < |g| && g[j].0 == name && Yields(g, j, root);
      assert j != i && g[j] == fields[j];
    }
    forall name | name in b && name != fields[i].0
      ensures name in a
    {
      var j :| 0 <= j < |fields| && fields[j].0 == name && Yields(fields, j, root);
      assert j != i && g[j] == fields[j];
    }
  }

  lemma ReplacedValue(fields: Fields, root: Doc, i: nat, e: Extractor, name: string)
    requires DistinctNames(fields) && i < |fields|
    requires e(root).Raise?
    requires DistinctNames(fields[i := (fields[i].0, e)])
    requires name in Extracted(fields[i := (fields[i].0, e)], root)
    ensures name in Extracted(fields, root) && Extracted(fields[i := (fields[i].0, e)], root)[name] == Extracted(fields, root)[name]
  {
    var g := fields[i := (fields[i].0, e)];
    var j :| 0 <= j < |g| && g[j].0 == name && Yields(g, j, root);
    assert j != i by {
      assert !Yields(g, i, root);
    }
    assert g[j] == fields[j];
  }

  /** `_extract_article`: None when the document does not parse or no field yields a value. */
  function ArticleOf(document: string, fields: Fields, p: XmlParser): (r: Option<Article>)
    requires DistinctNames(fields)
    ensures r.Some? <==> ParseXmlSafe(document, p).Some? && |Extracted(fields, ParseXmlSafe(document, p).value)| > 0
    ensures r.Some? ==> r.value == Extracted(fields, ParseXmlSafe(document, p).value)
  {
    match ParseXmlSafe(document, p)
    case None => None
    case Some(root) =>
      var art := Extracted(fields, root);
      if |art| > 0 then Some(art) else None
  }

  /** `_extract_article`, filling the article field by field as the source does. */
  method ExtractArticle(document: string, fields: Fields, p: XmlParser) returns (r: Option<Article>)
    requires DistinctNames(fields)
    ensures r == ArticleOf(document, fields, p)
  {
    var root := ParseXmlSafe(document, p);
    if root.None? {
      return None;
    }
    var art: Article := map[];
    for i := 0 to |fields|
      invariant forall name :: name in art <==> exists j :: 0 <= j < i && fields[j].0 == name && Yields(fields, j, root.value)
      invariant forall j :: 0 <= j < i && Yields(fields, j, root.value) ==> art[fields[j].0] == fields[j].1(root.value).value.value
    {
      var value := ExtractorSafe(fields[i].1, root.value);
      if value.Some? {
        art := art[fields[i].0 := value.value];
      }
    }
    assert art == Extracted(fields, root.value);
    if |art| > 0 {
      return Some(art);
    }
    return None;
  }

  /** `_extract_article` as a function of the document alone. */
  function ArticleFn(fields: Fields, p: XmlParser): string -> Option<Article>
    requires DistinctNames(fields)
  {
    d => ArticleOf(d, fields, p)
  }

  /** `extract_articles`: the articles of the documents that produce one, in input order. */
  function Articles(documents: seq<string>, fields: Fields, p: XmlParser): seq<Article>
    requires DistinctNames(fields)
  {
    FilterMap(ArticleFn(fields, p), documents)
  }

  /** Each document yields at most one article; the articles come from the documents at
      strictly increasing positions, and none is empty. */
  lemma ArticlesFromDocuments(documents: seq<string>, fields: Fields, p: XmlParser) returns (idx: seq<nat>)
    requires DistinctNames(fields)
    ensures |Articles(documents, fields, p)| <= |documents|
    ensures |idx| == |Articles(documents, fields, p)|
    ensures forall k :: 0 <= k < |idx| ==> idx[k] < |documents|
    ensures forall k, l :: 0 <= k < l < |idx| ==> idx[k] < idx[l]
    ensures forall k :: 0 <= k < |idx| ==> ArticleOf(documents[idx[k]], fields, p) == Some(Articles(documents, fields, p)[k])
    ensures forall k :: 0 <= k < |idx| ==> |Articles(documents, fields, p)[k]| > 0
  {
    idx := FilterMapSubsequence(ArticleFn(fields, p), documents);
    assert IsSourceIndex(ArticleFn(fields, p), documents, Articles(documents, fields, p), idx);
    assert forall k :: 0 <= k < |idx| ==> ArticleFn(fields, p)(documents[idx[k]]) == ArticleOf(documents[idx[k]], fields, p);
  }

  /** A document that does not parse yields nothing, and the documents around it are
      processed as if it were absent. */
  lemma UnparsableDocumentSkipped(before: seq<string>, document: string, after: seq<string>, fields: Fields, p: XmlParser)
    requires DistinctNames(fields)
    requires ParseXml(document, p).Raise?
    ensures Articles(before + [document] + after, fields, p) == Articles(before + after, fields, p)
  {
    var f := ArticleFn(fields, p);
    FilterMapAppend(f, before + [document], after);
    FilterMapAppend(f, before, [document]);
    FilterMapAppend(f, before, after);
    assert f(document).None?;
    assert FilterMap(f, [document]) == [];
  }

  /** `extract_articles`, as the generator loop of the source. */
  method ExtractArticles(documents: seq<string>, fields: Fields, p: XmlParser) returns (articles: seq<Article>)
    requires DistinctNames(fields)
    ensures articles == Articles(documents, fields, p)
  {
    articles := [];
    for i := 0 to |documents|
      invariant articles == Articles(documents[..i], fields, p)
    {
      var article := ExtractArticle(documents[i], fields, p);
      FilterMapAppend(ArticleFn(fields, p), documents[..i], [documents[i]]);
      assert documents[..i + 1] == documents[..i] + [documents[i]];
      if article.Some? {
        articles := articles + [article.value];
      }
    }
    assert documents[..|documents|] == documents;
  }
}
