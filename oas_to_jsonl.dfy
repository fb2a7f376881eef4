/** The stand-alone script `code/oas_to_jsonl.py`: the same article shape as the `convert`
    mode, collected from `.NXML` files, cleaned by an explicit loop, and written to a
    single JSONL file. */
module OasToJsonl {
  import opened PyCore
  import opened Jats
  import opened Types
  import opened ConvertMode
  import PipelineHelper

  /** The extension the script looks for. */
  const NxmlExt := ".NXML"

  /** `_collect_articles` keeps the regular files named `PMC...` and ending in `.nxml`,
      each part in any letter case; so `.xml` files are no longer collected. */
  lemma NxmlFileByName(f: PyPath.Entry)
    ensures IsArticleFile(f, NxmlExt) <==> (f.kind == PyPath.RegularFile && |f.name| >= 8
      && PyStr.Upper(f.name[..3]) == "PMC" && PyStr.Upper(f.name[|f.name| - 5..]) == ".NXML")
  {
    ArticleFileByName(f, NxmlExt);
  }

  /** `_clean_dict`: copy every entry whose value is not None into a fresh dictionary. */
  method CleanDict(d: map<string, Option<Value>>) returns (result: Article)
    ensures forall k :: k in result <==> k in d && d[k].Some?
    ensures forall k :: k in result ==> result[k] == d[k].value
    ensures result == DropNoneValues(d)
  {
    result := map[];
    var todo := d.Keys;
    while todo != {}
      invariant todo <= d.Keys
      invariant forall k :: k in result <==> k in d && k !in todo && d[k].Some?
      invariant forall k :: k in result ==> result[k] == d[k].value
      decreases todo
    {
      var k :| k in todo;
      if d[k].Some? {
        result := result[k := d[k].value];
      }
      todo := todo - {k};
    }
  }

  /** `_parse_article`: read, parse with the bytes retry, fill the dictionary in the fixed
      order (so a missing year raises before the ISSN join), then clean it. The script
      computes what the `convert` mode computes. */
  method ParseArticle(file: ArticleFile, p: XmlParser) returns (r: Outcome<Article>)
    ensures r == ConvertMode.ParseArticle(file, p)
  {
    if file.content.Raise? {
      return Raise(file.content.error);
    }
    var root := PipelineHelper.ParseXml(file.content.value, p);
    if root.Raise? {
      return Raise(root.error);
    }
    var raw := RawArticle(root.value);
    if raw.Raise? {
      return Raise(raw.error);
    }
    var cleaned := CleanDict(raw.value);
    return Ok(cleaned);
  }

  /** `_parse_article_safe`: any exception gives `{}`. */
  method ParseArticleSafe(file: ArticleFile, p: XmlParser) returns (r: Article)
    ensures r == ConvertMode.ParseArticleSafe(file, p)
    ensures r == map[] <==> ConvertMode.ParseArticle(file, p).Raise?
  {
    var parsed := ParseArticle(file, p);
    if parsed.Raise? {
      return map[];
    }
    return parsed.value;
  }

  /** `_save_articles_to_jsonl`: the one output file receives exactly the items with a
      non-empty body, in order; `{}` is never written. */
  method SaveArticlesToJsonl(results: seq<Article>) returns (written: seq<Article>)
    requires forall k :: 0 <= k < |results| ==> BodyHasLength(results[k])
    ensures written == Filter(HasBody, results)
    ensures forall a <- written :: HasBody(a) && a != map[]
  {
    written := [];
    for k := 0 to |results|
      invariant written == Filter(HasBody, results[..k])
    {
      if HasBody(results[k]) {
        written := written + [results[k]];
      }
      FilterStep(results, k);
    }
    assert results[..|results|] == results;
  }
}
