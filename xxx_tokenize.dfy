/** `src/oas/xxx/tokenize.py`: the same reshaping as the stand-alone tokenizing script,
    without its type checks, and a `main` that does nothing. */
module XxxTokenize {
  import opened PyCore
  import opened Types
  import opened TokenizeOasJsonl

  /** `_tokenize_lines` without the argument check: a string is iterated character by
      character, and an integer raises. */
  method TokenizeValue(v: Value, t: Tokenizers) returns (r: Outcome<seq<string>>)
    ensures r.Raise? <==> v.IntV?
    ensures r.Raise? ==> r.error == NotIterable
    ensures r.Ok? ==> r.value == TokenizedLines(LinesOf(v, false).value, t)
  {
    match v
    case IntV(_) =>
      return Raise(NotIterable);
    case ListV(l) =>
      var lines := TokenizeLines(l, t);
      return Ok(lines);
    case StrV(s) =>
      var lines := TokenizeLines(LinesOf(v, false).value, t);
      return Ok(lines);
  }

  /** A string field is tokenized as one paragraph per character. */
  lemma StringFieldIsCharacters(s: string, t: Tokenizers)
    ensures LinesOf(StrV(s), false) == Ok(seq(|s|, i requires 0 <= i < |s| => [s[i]]))
    ensures LinesOf(StrV(s), true) == Raise(NotIterable)
  {
  }

  /** `_tokenize_article`: fill the fresh dictionary key by key. */
  method TokenizeArticle(article: Article, t: Tokenizers) returns (r: Outcome<Article>)
    ensures r == TokenizedArticle(article, t, false)
  {
    if "id" !in article {
      return Raise(MissingKey("id"));
    }
    var json: Article := map[];
    json := json["id" := article["id"]];
    if "abstract" in article {
      var lines := TokenizeValue(article["abstract"], t);
      if lines.Raise? {
        return Raise(lines.error);
      }
      json := json["abstract_tokenized" := ListV(lines.value)];
    }
    if "body" in article {
      var lines := TokenizeValue(article["body"], t);
      if lines.Raise? {
        return Raise(lines.error);
      }
      json := json["body_tokenized" := ListV(lines.value)];
    }
    return Ok(json);
  }

  /** The two tokenizing copies agree on every article whose fields are lists. */
  lemma CopiesAgreeOnLists(article: Article, t: Tokenizers)
    requires forall k :: k in article && (k == "abstract" || k == "body") ==> article[k].ListV?
    ensures TokenizedArticle(article, t, false) == TokenizedArticle(article, t, true)
  {
  }

  /** `main`: its body is `pass`; the output folder is left as it was. */
  method Run(files: map<string, seq<Article>>, jsonlIn: string, jsonlOut: string, subProcessCount: int)
    returns (after: map<string, seq<Article>>)
    ensures after == files
  {
    after := files;
  }
}
