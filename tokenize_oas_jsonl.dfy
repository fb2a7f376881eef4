/** The stand-alone script `code/tokenize_oas_jsonl.py`: every article of a JSONL file is
    reshaped into its id and its tokenized abstract and body, one sentence per line with
    the words separated by single spaces, and a blank line for a blank paragraph. */
module TokenizeOasJsonl {
  import opened PyCore
  import opened PyStr
  import opened Types

  /** The NLTK tokenizers: Punkt sentence splitting and `word_tokenize`. */
  datatype Tokenizers = Tokenizers(sentences: string -> seq<string>, words: string -> seq<string>)

  /** The lines one paragraph yields. */
  function LineGroup(line: string, t: Tokenizers): seq<string> {
    var stripped := Strip(line);
    if stripped == "" then [""]
    else
      var sentences := t.sentences(stripped);
      seq(|sentences|, i requires 0 <= i < |sentences| => Join(" ", t.words(sentences[i])))
  }

  /** A paragraph that strips to empty yields one `''` line; any other paragraph yields one
      line per sentence of the stripped paragraph, its words joined by single spaces. */
  lemma LineGroupMeaning(line: string, t: Tokenizers)
    ensures Strip(line) == "" ==> LineGroup(line, t) == [""]
    ensures Strip(line) != "" ==> (|LineGroup(line, t)| == |t.sentences(Strip(line))|
      && forall i :: 0 <= i < |LineGroup(line, t)| ==> LineGroup(line, t)[i] == Join(" ", t.words(t.sentences(Strip(line))[i])))
  {
  }

  /** All lines `_tokenize_lines` yields: paragraph by paragraph, sentence by sentence. */
  function TokenizedLines(lines: seq<string>, t: Tokenizers): seq<string> {
    FlatMap(line => LineGroup(line, t), lines)
  }

  /** Tokenizing two runs of paragraphs one after the other gives their lines one after
      the other, so output lines keep paragraph order. */
  lemma TokenizedLinesAppend(a: seq<string>, b: seq<string>, t: Tokenizers)
    ensures TokenizedLines(a + b, t) == TokenizedLines(a, t) + TokenizedLines(b, t)
  {
    FlatMapAppend(line => LineGroup(line, t), a, b);
  }

  /** Every blank paragraph contributes exactly one empty line. */
  lemma {:induction false} BlankParagraphsGiveBlankLines(lines: seq<string>, t: Tokenizers)
    requires forall i :: 0 <= i < |lines| ==> AllSpace(lines[i])
    ensures TokenizedLines(lines, t) == seq(|lines|, i => "")
  {
    if lines != [] {
      var n := |lines| - 1;
      BlankParagraphsGiveBlankLines(lines[..n], t);
      StripMeaning(lines[n]);
    }
  }

  /** A paragraph holding more than white space. */
  predicate NonBlank(line: string) {
    Strip(line) != ""
  }

  predicate IsEmptyLine(s: string) {
    s == ""
  }

  /** No element of `s` is the empty line. */
  lemma NoEmptyLine(s: seq<string>)
    requires "" !in s
    ensures Filter(IsEmptyLine, s) == []
  {
    var r := Filter(IsEmptyLine, s);
    assert forall x <- r :: x == "" && x in s;
    assert "" !in r;
  }

  /** When no sentence of a non-blank paragraph tokenizes to an empty line, the empty lines
      of the output are exactly one per blank paragraph: nothing separates two non-blank
      paragraphs. */
  lemma {:induction false} EmptyLinesOnlyFromBlankParagraphs(lines: seq<string>, t: Tokenizers)
    requires forall line :: line in lines && NonBlank(line) ==> "" !in LineGroup(line, t)
    ensures |Filter(IsEmptyLine, TokenizedLines(lines, t))| == |lines| - |Filter(NonBlank, lines)|
  {
    if lines != [] {
      var n := |lines| - 1;
      var init, last := lines[..n], lines[n];
      assert lines == init + [last];
      assert forall line :: line in init ==> line in lines;
      EmptyLinesOnlyFromBlankParagraphs(init, t);
      TokenizedLinesAppend(init, [last], t);
      assert TokenizedLines([last], t) == LineGroup(last, t) by {
        assert [last][..0] == [];
      }
      FilterAppend(IsEmptyLine, TokenizedLines(init, t), LineGroup(last, t));
      FilterAppend(NonBlank, init, [last]);
      if NonBlank(last) {
        NoEmptyLine(LineGroup(last, t));
      } else {
        assert LineGroup(last, t) == [""];
      }
    }
  }

  /** Two non-blank paragraphs give their lines back to back, with no empty line between. */
  lemma NoBlankLineBetweenParagraphs(a: string, b: string, t: Tokenizers)
    requires NonBlank(a) && NonBlank(b) && "" !in LineGroup(a, t) && "" !in LineGroup(b, t)
    ensures TokenizedLines([a, b], t) == LineGroup(a, t) + LineGroup(b, t)
    ensures "" !in TokenizedLines([a, b], t)
  {
    TokenizedLinesAppend([a], [b], t);
    assert [a][..0] == [] && [b][..0] == [];
    assert [a] + [b] == [a, b];
  }

  /** Paragraph line groups with one empty line between consecutive groups. */
  function Separated(groups: seq<seq<string>>): seq<string> {
    if groups == [] then []
    else if |groups| == 1 then groups[0]
    else Separated(groups[..|groups| - 1]) + [""] + groups[|groups| - 1]
  }

  /** One sentence per line and a blank line between paragraphs: the lines of every
      non-blank paragraph, separated by one empty line each. */
  function ParagraphLines(lines: seq<string>, t: Tokenizers): seq<string> {
    var paragraphs := Filter(NonBlank, lines);
    Separated(seq(|paragraphs|, i requires 0 <= i < |paragraphs| => LineGroup(paragraphs[i], t)))
  }

  lemma {:induction false} SeparatedEmptyLines(groups: seq<seq<string>>)
    requires groups != [] && forall i :: 0 <= i < |groups| ==> "" !in groups[i]
    ensures |Filter(IsEmptyLine, Separated(groups))| == |groups| - 1
  {
    var n := |groups| - 1;
    NoEmptyLine(groups[n]);
    if n > 0 {
      var init := groups[..n];
      assert forall i :: 0 <= i < |init| ==> init[i] == groups[i];
      SeparatedEmptyLines(init);
      FilterAppend(IsEmptyLine, Separated(init) + [""], groups[n]);
      FilterAppend(IsEmptyLine, Separated(init), [""]);
    }
  }

  /** With the same tokenizer assumption, `n >= 1` non-blank paragraphs are separated by
      exactly `n - 1` empty lines. */
  lemma ParagraphsSeparated(lines: seq<string>, t: Tokenizers)
    requires forall line :: line in lines && NonBlank(line) ==> "" !in LineGroup(line, t)
    requires Filter(NonBlank, lines) != []
    ensures |Filter(IsEmptyLine, ParagraphLines(lines, t))| == |Filter(NonBlank, lines)| - 1
  {
    var paragraphs := Filter(NonBlank, lines);
    SeparatedEmptyLines(seq(|paragraphs|, i requires 0 <= i < |paragraphs| => LineGroup(paragraphs[i], t)));
  }

  /** Two non-blank paragraphs: their lines with one empty line between them. */
  lemma BlankLineBetweenParagraphs(a: string, b: string, t: Tokenizers)
    requires NonBlank(a) && NonBlank(b)
    ensures ParagraphLines([a, b], t) == LineGroup(a, t) + [""] + LineGroup(b, t)
  {
    assert [a, b] == [a] + [b];
    FilterAppend(NonBlank, [a], [b]);
    assert Filter(NonBlank, [a, b]) == [a, b];
    var groups := seq(2, i requires 0 <= i < 2 => LineGroup([a, b][i], t));
    assert groups[0] == LineGroup(a, t) && groups[1] == LineGroup(b, t);
    assert groups[..1] == [LineGroup(a, t)];
    assert Separated(groups) == Separated(groups[..1]) + [""] + groups[1];
  }

  lemma TokenizedLinesStep(lines: seq<string>, i: nat, t: Tokenizers)
    requires i < |lines|
    ensures TokenizedLines(lines[..i + 1], t) == TokenizedLines(lines[..i], t) + LineGroup(lines[i], t)
  {
    assert lines[..i + 1][..i] == lines[..i];
  }

  /** The inner loop of `_tokenize_lines`: one space-joined line per sentence. */
  method SentenceLines(sentences: seq<string>, t: Tokenizers) returns (group: seq<string>)
    ensures |group| == |sentences| && forall j :: 0 <= j < |sentences| ==> group[j] == Join(" ", t.words(sentences[j]))
  {
    group := [];
    for j := 0 to |sentences|
      invariant |group| == j && forall k :: 0 <= k < j ==> group[k] == Join(" ", t.words(sentences[k]))
    {
      group := group + [Join(" ", t.words(sentences[j]))];
    }
  }

  /** `_tokenize_lines`: the generator loop, collected into a list. */
  method TokenizeLines(lines: seq<string>, t: Tokenizers) returns (out: seq<string>)
    ensures out == TokenizedLines(lines, t)
  {
    out := [];
    for i := 0 to |lines|
      invariant out == TokenizedLines(lines[..i], t)
    {
      TokenizedLinesStep(lines, i, t);
      var line := Strip(lines[i]);
      if line == "" {
        out := out + [""];
      } else {
        var group := SentenceLines(t.sentences(line), t);
        assert group == LineGroup(lines[i], t);
        out := out + group;
      }
    }
    assert lines[..|lines|] == lines;
  }

  /** What iterating a field value as a list of lines gives. The type-checked script
      refuses anything but a list of strings; without the check a string is iterated
      character by character, and an integer is never iterable. */
  function LinesOf(v: Value, checked: bool): (r: Outcome<seq<string>>)
    ensures v.ListV? ==> r == Ok(v.l)
    ensures v.IntV? || (checked && v.StrV?) ==> r == Raise(NotIterable)
    ensures !checked && v.StrV? ==> r.Ok? && |r.value| == |v.s| && forall i :: 0 <= i < |v.s| ==> r.value[i] == [v.s[i]]
  {
    match v
    case ListV(l) => Ok(l)
    case IntV(_) => Raise(NotIterable)
    case StrV(s) => if checked then Raise(NotIterable) else Ok(seq(|s|, i requires 0 <= i < |s| => [s[i]]))
  }

  /** The tokenized value of an optional field: absent stays absent. */
  function TokenizedField(article: Article, key: string, t: Tokenizers, checked: bool): (r: Outcome<Option<Value>>)
    ensures key !in article ==> r == Ok(None)
    ensures key in article ==> (r.Raise? <==> LinesOf(article[key], checked).Raise?)
    ensures key in article && r.Ok? ==> r.value == Some(ListV(TokenizedLines(LinesOf(article[key], checked).value, t)))
  {
    if key !in article then Ok(None)
    else match LinesOf(article[key], checked)
      case Raise(e) => Raise(e)
      case Ok(lines) => Ok(Some(ListV(TokenizedLines(lines, t))))
  }

  /** `_tokenize_article`: the id, then the tokenized abstract and body when present. */
  function TokenizedArticle(article: Article, t: Tokenizers, checked: bool): (r: Outcome<Article>)
    ensures "id" !in article ==> r == Raise(MissingKey("id"))
    ensures r.Ok? ==> "id" in article && "id" in r.value && r.value["id"] == article["id"]
    ensures r.Ok? ==> forall k :: k in r.value <==>
      (k == "id" || (k == "abstract_tokenized" && "abstract" in article) || (k == "body_tokenized" && "body" in article))
    ensures r.Ok? && "abstract" in article ==> (LinesOf(article["abstract"], checked).Ok?
      && r.value["abstract_tokenized"] == ListV(TokenizedLines(LinesOf(article["abstract"], checked).value, t)))
    ensures r.Ok? && "body" in article ==> (LinesOf(article["body"], checked).Ok?
      && r.value["body_tokenized"] == ListV(TokenizedLines(LinesOf(article["body"], checked).value, t)))
    ensures "id" in article && "abstract" in article && LinesOf(article["abstract"], checked).Raise? ==>
      r == Raise(LinesOf(article["abstract"], checked).error)
    ensures ("id" in article && ("abstract" !in article || LinesOf(article["abstract"], checked).Ok?)
      && "body" in article && LinesOf(article["body"], checked).Raise?) ==> r == Raise(LinesOf(article["body"], checked).error)
    ensures r.Raise? <==> ("id" !in article || ("abstract" in article && LinesOf(article["abstract"], checked).Raise?)
      || ("body" in article && LinesOf(article["body"], checked).Raise?))
  {
    if "id" !in article then Raise(MissingKey("id"))
    else match TokenizedField(article, "abstract", t, checked)
      case Raise(e) => Raise(e)
      case Ok(abstr) =>
        match TokenizedField(article, "body", t, checked)
        case Raise(e) => Raise(e)
        case Ok(body) =>
          var json := map["id" := article["id"]];
          var json := if abstr.Some? then json["abstract_tokenized" := abstr.value] else json;
          Ok(if body.Some? then json["body_tokenized" := body.value] else json)
  }

  /** The type-checked `_tokenize_article`: fill the fresh dictionary key by key. */
  method TokenizeArticle(article: Article, t: Tokenizers) returns (r: Outcome<Article>)
    ensures r == TokenizedArticle(article, t, true)
  {
    if "id" !in article {
      return Raise(MissingKey("id"));
    }
    var json: Article := map[];
    json := json["id" := article["id"]];
    if "abstract" in article {
      if !article["abstract"].ListV? {
        return Raise(NotIterable);
      }
      var lines := TokenizeLines(article["abstract"].l, t);
      json := json["abstract_tokenized" := ListV(lines)];
    }
    if "body" in article {
      if !article["body"].ListV? {
        return Raise(NotIterable);
      }
      var lines := TokenizeLines(article["body"].l, t);
      json := json["body_tokenized" := ListV(lines)];
    }
    return Ok(json);
  }

  /** `_collect_articles` and `_save_articles_to_jsonl`: every item read is passed on and
      written, unfiltered and in reader order. */
  method PassThrough(items: seq<Article>) returns (written: seq<Article>)
    ensures written == items
  {
    written := [];
    for k := 0 to |items|
      invariant written == items[..k]
    {
      written := written + [items[k]];
    }
  }
}
