/** The stand-alone script `code/convert_to_corpus.py`: every full-text `.nxml` file of a
    folder becomes two text files, `abstract/PMC<id>.txt` and `body/PMC<id>.txt`, holding
    one sentence per line and a blank line between paragraphs. */
module ConvertToCorpus {
  import opened PyCore
  import opened PyStr
  import opened PyPath
  import opened Jats
  import opened ExtractHelper
  import Types
  import ExtractMetadata

  /** The Punkt sentence splitter, `sent_tokenize.tokenize`. */
  type SentenceTokenizer = string -> seq<string>

  /** The `JATS` named tuple of this script: the id and the sentences of every paragraph. */
  datatype CorpusArticle = CorpusArticle(id: Option<string>, abstr: seq<seq<string>>, body: seq<seq<string>>)

  /** `convert_to_sentences`: one sentence list per paragraph, in paragraph order. */
  function ConvertToSentences(paragraphs: seq<string>, tokenize: SentenceTokenizer): (r: seq<seq<string>>)
    ensures |r| == |paragraphs| && forall i :: 0 <= i < |r| ==> r[i] == tokenize(paragraphs[i])
  {
    seq(|paragraphs|, i requires 0 <= i < |paragraphs| => tokenize(paragraphs[i]))
  }

  /** Tokenizing paragraph by paragraph keeps the paragraph order: the sentences of two
      runs of paragraphs are the sentences of each run, one after the other. */
  lemma ConvertToSentencesAppend(a: seq<string>, b: seq<string>, tokenize: SentenceTokenizer)
    ensures ConvertToSentences(a + b, tokenize) == ConvertToSentences(a, tokenize) + ConvertToSentences(b, tokenize)
  {
    var l, r, m := ConvertToSentences(a + b, tokenize), ConvertToSentences(a, tokenize), ConvertToSentences(b, tokenize);
    assert forall i :: 0 <= i < |l| ==> l[i] == (r + m)[i] by {
      forall i | 0 <= i < |l| ensures l[i] == (r + m)[i] {
        if i < |a| {
          assert (a + b)[i] == a[i];
        } else {
          assert (a + b)[i] == b[i - |a|];
        }
      }
    }
  }

  /** `parse_jats_article`: read, parse with `etree.fromstring`, take the id and the
      sentences of the abstract and the body; None (not full text) when either has no
      paragraph. */
  function ParseJatsArticle(content: Outcome<string>, p: XmlParser, tokenize: SentenceTokenizer): (r: Outcome<Option<CorpusArticle>>)
    ensures r.Ok? <==> content.Ok? && p.fromString(content.value).Ok?
    ensures r.Ok? ==> var root := p.fromString(content.value).value;
      && (r.value.None? <==> (ExtractParagraphs([root.abstractParagraphs, root.transAbstractParagraphs]) == []
        || ExtractParagraphs([root.sectionParagraphs, root.bodyParagraphs]) == []))
      && (r.value.Some? ==> (r.value.value.id == FirstText(root.pmcIds)
        && r.value.value.abstr == ConvertToSentences(ExtractParagraphs([root.abstractParagraphs, root.transAbstractParagraphs]), tokenize)
        && r.value.value.body == ConvertToSentences(ExtractParagraphs([root.sectionParagraphs, root.bodyParagraphs]), tokenize)))
  {
    if content.Raise? then Raise(content.error)
    else
      match p.fromString(content.value)
      case Raise(e) => Raise(e)
      case Ok(root) =>
        var abstr := ConvertToSentences(ExtractParagraphs([root.abstractParagraphs, root.transAbstractParagraphs]), tokenize);
        var body := ConvertToSentences(ExtractParagraphs([root.sectionParagraphs, root.bodyParagraphs]), tokenize);
        Ok(if |abstr| > 0 && |body| > 0 then Some(CorpusArticle(FirstText(root.pmcIds), abstr, body)) else None)
  }

  /** The lines of one paragraph: every sentence followed by a newline. */
  function SentenceLines(sentences: seq<string>): string {
    if sentences == [] then ""
    else SentenceLines(sentences[..|sentences| - 1]) + sentences[|sentences| - 1] + "\n"
  }

  /** The text `write_article_part` writes: the paragraphs' lines, with one extra newline
      between consecutive paragraphs and none before the first. */
  function PartText(paragraphs: seq<seq<string>>): string {
    if paragraphs == [] then ""
    else if |paragraphs| == 1 then SentenceLines(paragraphs[0])
    else PartText(paragraphs[..|paragraphs| - 1]) + "\n" + SentenceLines(paragraphs[|paragraphs| - 1])
  }

  /** `write_article_part`: the loop with its `first` flag, writing piece by piece. */
  method WriteArticlePart(paragraphs: seq<seq<string>>) returns (out: string)
    ensures out == PartText(paragraphs)
  {
    var first := true;
    out := "";
    for i := 0 to |paragraphs|
      invariant first <==> i == 0
      invariant out == PartText(paragraphs[..i])
    {
      if first {
        first := false;
      } else {
        out := out + "\n";
      }
      var head := out;
      var paragraph := paragraphs[i];
      for j := 0 to |paragraph|
        invariant out == head + SentenceLines(paragraph[..j])
      {
        assert paragraph[..j + 1][..j] == paragraph[..j];
        out := out + paragraph[j];
        out := out + "\n";
      }
      assert paragraph[..|paragraph|] == paragraph;
      assert paragraphs[..i + 1][..i] == paragraphs[..i];
    }
    assert paragraphs[..|paragraphs|] == paragraphs;
  }

  /** The lines of every paragraph, in order. */
  function ParagraphBlocks(paragraphs: seq<seq<string>>): (r: seq<string>)
    ensures |r| == |paragraphs| && forall i :: 0 <= i < |r| ==> r[i] == SentenceLines(paragraphs[i])
  {
    seq(|paragraphs|, i requires 0 <= i < |paragraphs| => SentenceLines(paragraphs[i]))
  }

  /** The part text is the paragraphs' lines joined by one newline. */
  lemma {:induction false} PartTextIsJoin(paragraphs: seq<seq<string>>)
    ensures PartText(paragraphs) == Join("\n", ParagraphBlocks(paragraphs))
  {
    if |paragraphs| > 1 {
      var n := |paragraphs| - 1;
      PartTextIsJoin(paragraphs[..n]);
      assert ParagraphBlocks(paragraphs) == ParagraphBlocks(paragraphs[..n]) + [SentenceLines(paragraphs[n])];
      JoinSnoc("\n", ParagraphBlocks(paragraphs[..n]), SentenceLines(paragraphs[n]));
    }
  }

  /** No paragraph gives an empty file. */
  lemma EmptyPart()
    ensures PartText([]) == ""
  {
  }

  /** The number of sentences of all paragraphs. */
  function SentenceCount(paragraphs: seq<seq<string>>): nat {
    if paragraphs == [] then 0
    else SentenceCount(paragraphs[..|paragraphs| - 1]) + |paragraphs[|paragraphs| - 1]|
  }

  /** A paragraph's lines hold one newline per sentence when no sentence holds one. */
  lemma {:induction false} SentenceLinesNewlines(sentences: seq<string>)
    requires forall k :: 0 <= k < |sentences| ==> '\n' !in sentences[k]
    ensures multiset(SentenceLines(sentences))['\n'] == |sentences|
  {
    if sentences != [] {
      var n := |sentences| - 1;
      SentenceLinesNewlines(sentences[..n]);
      assert multiset(sentences[n])['\n'] == 0;
      assert multiset(SentenceLines(sentences)) == multiset(SentenceLines(sentences[..n])) + multiset(sentences[n]) + multiset("\n");
    }
  }

  /** With newline-free sentences, `n >= 1` paragraphs give the total number of sentences
      plus `n - 1` newlines. */
  lemma {:induction false} PartNewlines(paragraphs: seq<seq<string>>)
    requires paragraphs != []
    requires forall i, k :: 0 <= i < |paragraphs| && 0 <= k < |paragraphs[i]| ==> '\n' !in paragraphs[i][k]
    ensures multiset(PartText(paragraphs))['\n'] == SentenceCount(paragraphs) + |paragraphs| - 1
  {
    var n := |paragraphs| - 1;
    SentenceLinesNewlines(paragraphs[n]);
    if n == 0 {
      assert SentenceCount(paragraphs) == |paragraphs[0]| by {
        assert paragraphs[..0] == [];
      }
    } else {
      var init := paragraphs[..n];
      assert forall i, k :: 0 <= i < |init| && 0 <= k < |init[i]| ==> '\n' !in init[i][k] by {
        assert forall i :: 0 <= i < |init| ==> init[i] == paragraphs[i];
      }
      PartNewlines(init);
      assert multiset(PartText(paragraphs)) == multiset(PartText(init)) + multiset("\n") + multiset(SentenceLines(paragraphs[n]));
    }
  }

  /** `f'PMC{article.id}.txt'`: a missing id is formatted as `None`. */
  function FileNameOf(id: Option<string>): string {
    "PMC" + (if id.Some? then id.value else "None") + ".txt"
  }

  /** The two files of `write_article`, added to (or replacing in) the output folder. */
  function WriteArticle(files: map<string, string>, a: CorpusArticle): (r: map<string, string>)
    ensures r.Keys == files.Keys + {"abstract/" + FileNameOf(a.id), "body/" + FileNameOf(a.id)}
    ensures r["abstract/" + FileNameOf(a.id)] == PartText(a.abstr) && r["body/" + FileNameOf(a.id)] == PartText(a.body)
    ensures forall k :: k in files && k != "abstract/" + FileNameOf(a.id) && k != "body/" + FileNameOf(a.id) ==> r[k] == files[k]
  {
    var abstractName := "abstract/" + FileNameOf(a.id);
    var bodyName := "body/" + FileNameOf(a.id);
    assert abstractName != bodyName by {
      assert abstractName[0] == 'a' && bodyName[0] == 'b';
    }
    files[abstractName := PartText(a.abstr)][bodyName := PartText(a.body)]
  }

  /** What happened to one file: written, not full text, or an exception. */
  datatype FileOutcome = Written(article: CorpusArticle) | NotFullText | Failed(error: Exception)

  /** The outcome for one directory entry, when it is an `.nxml` file. */
  function OutcomeOf(e: Entry, p: XmlParser, tokenize: SentenceTokenizer): FileOutcome {
    match ParseJatsArticle(e.content, p, tokenize)
    case Raise(ex) => Failed(ex)
    case Ok(None) => NotFullText
    case Ok(Some(a)) => Written(a)
  }

  /** The reason an error row gives: `not full text`, or the exception. */
  datatype Reason = NotFullTextReason | Raised(error: Exception)

  /** The articles written, one per `.nxml` file that is full text. */
  function WrittenOf(p: XmlParser, tokenize: SentenceTokenizer): Entry -> Option<CorpusArticle> {
    e => if ExtractMetadata.IsNxmlFile(e) && OutcomeOf(e, p, tokenize).Written? then Some(OutcomeOf(e, p, tokenize).article) else None
  }

  /** The error rows, one per `.nxml` file that is not written. */
  function ErrorOf(p: XmlParser, tokenize: SentenceTokenizer): Entry -> Option<(string, Reason)> {
    e => if !ExtractMetadata.IsNxmlFile(e) then None
      else match OutcomeOf(e, p, tokenize)
        case Written(_) => None
        case NotFullText => Some((Stem(e.name), NotFullTextReason))
        case Failed(ex) => Some((Stem(e.name), Raised(ex)))
  }

  /** The folder's content after writing the given articles in order. */
  function FilesAfter(articles: seq<CorpusArticle>): map<string, string> {
    if articles == [] then map[] else WriteArticle(FilesAfter(articles[..|articles| - 1]), articles[|articles| - 1])
  }

  lemma FilesAfterSnoc(articles: seq<CorpusArticle>, a: CorpusArticle)
    ensures FilesAfter(articles + [a]) == WriteArticle(FilesAfter(articles), a)
  {
    assert (articles + [a])[..|articles|] == articles;
  }

  /** The names `<folder>/PMC<id>.txt` of the given articles. */
  function NamesIn(folder: string, articles: seq<CorpusArticle>): set<string> {
    set k | 0 <= k < |articles| :: folder + FileNameOf(articles[k].id)
  }

  lemma NamesInSnoc(folder: string, articles: seq<CorpusArticle>)
    requires articles != []
    ensures NamesIn(folder, articles) == NamesIn(folder, articles[..|articles| - 1]) + {folder + FileNameOf(articles[|articles| - 1].id)}
  {
    var n := |articles| - 1;
    var init := articles[..n];
    forall x | x in NamesIn(folder, articles)
      ensures x in NamesIn(folder, init) + {folder + FileNameOf(articles[n].id)}
    {
      var k :| 0 <= k < |articles| && x == folder + FileNameOf(articles[k].id);
      if k < n {
        assert init[k] == articles[k];
      }
    }
    forall x | x in NamesIn(folder, init)
      ensures x in NamesIn(folder, articles)
    {
      var k :| 0 <= k < |init| && x == folder + FileNameOf(init[k].id);
      assert init[k] == articles[k];
    }
  }

  /** The folder holds the two files of every written article and no other file. */
  lemma {:induction false} WrittenFilesOnly(articles: seq<CorpusArticle>)
    ensures FilesAfter(articles).Keys == NamesIn("abstract/", articles) + NamesIn("body/", articles)
  {
    if articles != [] {
      WrittenFilesOnly(articles[..|articles| - 1]);
      NamesInSnoc("abstract/", articles);
      NamesInSnoc("body/", articles);
    }
  }

  /** Each `.nxml` file ends in exactly one outcome: written or one error row. */
  lemma {:induction false} OutcomePartition(entries: seq<Entry>, p: XmlParser, tokenize: SentenceTokenizer)
    ensures |FilterMap(WrittenOf(p, tokenize), entries)| + |FilterMap(ErrorOf(p, tokenize), entries)|
      == |Filter(ExtractMetadata.IsNxmlFile, entries)|
  {
    if entries != [] {
      var e := entries[0];
      assert entries == [e] + entries[1..];
      OutcomePartition(entries[1..], p, tokenize);
      FilterMapAppend(WrittenOf(p, tokenize), [e], entries[1..]);
      FilterMapAppend(ErrorOf(p, tokenize), [e], entries[1..]);
      FilterAppend(ExtractMetadata.IsNxmlFile, [e], entries[1..]);
    }
  }

  /** One more directory entry adds at most its own article or error row. */
  lemma RoutingStep(entries: seq<Entry>, k: nat, p: XmlParser, tokenize: SentenceTokenizer)
    requires k < |entries|
    ensures var e := entries[k]; var o := OutcomeOf(e, p, tokenize);
      FilterMap(WrittenOf(p, tokenize), entries[..k + 1]) == FilterMap(WrittenOf(p, tokenize), entries[..k])
        + if ExtractMetadata.IsNxmlFile(e) && o.Written? then [o.article] else []
    ensures var e := entries[k]; var o := OutcomeOf(e, p, tokenize);
      FilterMap(ErrorOf(p, tokenize), entries[..k + 1]) == FilterMap(ErrorOf(p, tokenize), entries[..k])
        + if !ExtractMetadata.IsNxmlFile(e) || o.Written? then []
          else if o.NotFullText? then [(Stem(e.name), NotFullTextReason)]
          else [(Stem(e.name), Raised(o.error))]
  {
    var e := entries[k];
    assert entries[..k + 1] == entries[..k] + [e];
    FilterMapSnoc(WrittenOf(p, tokenize), entries[..k], e);
    FilterMapSnoc(ErrorOf(p, tokenize), entries[..k], e);
  }

  /** `convert_folder_to_corpus`: the files of the output folder, the articles written in
      listing order, and the error rows in encounter order; then the errors file,
      `<stem of the output folder>.errors.csv`, in the output folder. `folderOutName` is the
      last part of the output folder's path, whose `.stem` names the errors file. */
  method ConvertFolderToCorpus(folderOutName: string, entries: seq<Entry>, p: XmlParser, tokenize: SentenceTokenizer)
    returns (files: map<string, string>, written: seq<CorpusArticle>, errors: seq<(string, Reason)>,
      errorsName: string, errorRows: seq<Types.Row>)
    ensures written == FilterMap(WrittenOf(p, tokenize), entries)
    ensures errors == FilterMap(ErrorOf(p, tokenize), entries)
    ensures files == FilesAfter(written)
    ensures errorsName == Stem(folderOutName) + ".errors.csv"
    ensures '.' !in folderOutName ==> errorsName == folderOutName + ".errors.csv"
    ensures |errorRows| == |errors| + 1 && errorRows[0] == Types.HeaderRow(["PMCID", "exception"])
    ensures forall k :: 0 <= k < |errors| ==> errorRows[k + 1] == [Types.Text(errors[k].0), ReasonCell(errors[k].1)]
  {
    errorsName := Stem(folderOutName) + ".errors.csv";
    files := map[];
    written := [];
    errors := [];
    for k := 0 to |entries|
      invariant written == FilterMap(WrittenOf(p, tokenize), entries[..k])
      invariant errors == FilterMap(ErrorOf(p, tokenize), entries[..k])
      invariant files == FilesAfter(written)
    {
      var e := entries[k];
      RoutingStep(entries, k, p, tokenize);
      if ExtractMetadata.IsNxmlFile(e) {
        match OutcomeOf(e, p, tokenize)
        case Failed(ex) =>
          errors := errors + [(Stem(e.name), Raised(ex))];
        case NotFullText =>
          errors := errors + [(Stem(e.name), NotFullTextReason)];
        case Written(a) =>
          FilesAfterSnoc(written, a);
          files := WriteArticle(files, a);
          written := written + [a];
      }
    }
    assert entries[..|entries|] == entries;
    errorRows := WriteErrors(errors);
  }

  /** The second cell of an error row: the text `not full text`, or the exception. */
  function ReasonCell(r: Reason): Types.Cell {
    match r
    case NotFullTextReason => Types.Text("not full text")
    case Raised(ex) => Types.Failure(ex)
  }

  /** `write_errors`: the header `PMCID, exception`, then one row per error in order. */
  method WriteErrors(errors: seq<(string, Reason)>) returns (rows: seq<Types.Row>)
    ensures |rows| == |errors| + 1 && rows[0] == Types.HeaderRow(["PMCID", "exception"])
    ensures forall k :: 0 <= k < |errors| ==> rows[k + 1] == [Types.Text(errors[k].0), ReasonCell(errors[k].1)]
  {
    rows := [Types.HeaderRow(["PMCID", "exception"])];
    for k := 0 to |errors|
      invariant |rows| == k + 1 && rows[0] == Types.HeaderRow(["PMCID", "exception"])
      invariant forall j :: 0 <= j < k ==> rows[j + 1] == [Types.Text(errors[j].0), ReasonCell(errors[j].1)]
    {
      rows := rows + [[Types.Text(errors[k].0), ReasonCell(errors[k].1)]];
    }
  }
}
