/** The `convert` mode of `src/oas/mode/convert.py`: collect the JATS files one folder
    below the source, parse each into an article (any failure gives `{}`), and write the
    articles that have a body into files that rotate after `count` articles. */
module ConvertMode {
  import opened PyCore
  import opened PyStr
  import opened PyInt
  import opened PyPath
  import opened Jats
  import opened Types
  import opened ExtractHelper
  import PipelineHelper

  /** A file to convert: `str()` of its path and what reading it as UTF-8 gives. */
  datatype ArticleFile = ArticleFile(path: string, content: Outcome<string>)

  /** The file filter of `_collect_articles`: a regular file whose upper-cased stem starts
      with `PMC` and whose upper-cased suffix is `ext`. */
  predicate IsArticleFile(f: Entry, ext: string) {
    f.kind == RegularFile && StartsWith(Upper(Stem(f.name)), "PMC") && Upper(Suffix(f.name)) == ext
  }

  /** The file test of `_collect_articles` for extension `ext`. */
  function ArticleFilter(ext: string): Entry -> bool {
    f => IsArticleFile(f, ext)
  }

  /** The files of sub-folder `sub` that `keep` selects, paired with it, in listing order. */
  function SelectedIn(sub: Entry, files: seq<Entry>, keep: Entry -> bool): (r: seq<(Entry, Entry)>)
    ensures |r| <= |files|
    ensures forall k :: 0 <= k < |r| ==> r[k].0 == sub && r[k].1 in files && keep(r[k].1)
    ensures forall j :: 0 <= j < |files| && keep(files[j]) ==> (sub, files[j]) in r
  {
    if files == [] then []
    else
      var rest := SelectedIn(sub, files[1..], keep);
      assert forall j :: 1 <= j < |files| ==> files[j] == files[1..][j - 1];
      if keep(files[0]) then [(sub, files[0])] + rest else rest
  }

  /** The (sub-folder, file) pairs `_collect_articles` walks over: the selected files
      exactly one level below the folder, sub-folder by sub-folder. Entries directly in the
      folder are never taken. */
  function Selected(entries: seq<Entry>, keep: Entry -> bool): (r: seq<(Entry, Entry)>)
    ensures forall k :: 0 <= k < |r| ==>
      r[k].0 in entries && r[k].0.kind == Directory && r[k].1 in r[k].0.children && keep(r[k].1)
    ensures forall i, j :: (0 <= i < |entries| && entries[i].kind == Directory && 0 <= j < |entries[i].children|
      && keep(entries[i].children[j])) ==> (entries[i], entries[i].children[j]) in r
  {
    if entries == [] then []
    else
      var s := entries[0];
      var here := if s.kind == Directory then SelectedIn(s, s.children, keep) else [];
      var rest := Selected(entries[1..], keep);
      assert forall i :: 1 <= i < |entries| ==> entries[i] == entries[1..][i - 1];
      here + rest
  }

  /** `str(folder / sub.name / f.name)` with the file's content. */
  function FileOf(folder: Path, sub: Entry, f: Entry): ArticleFile {
    ArticleFile(PathString(Path(folder.absolute, folder.parts + [sub.name, f.name])), f.content)
  }

  /** `_collect_articles`: the paths of the selected files, in walking order. */
  function CollectArticles(folder: Path, entries: seq<Entry>, ext: string): seq<ArticleFile> {
    FilesOf(folder, Selected(entries, ArticleFilter(ext)))
  }

  /** `str(folder / sub.name / f.name)` and the content, for each selected pair. */
  function FilesOf(folder: Path, sel: seq<(Entry, Entry)>): (r: seq<ArticleFile>)
    ensures |r| == |sel| && forall k :: 0 <= k < |sel| ==> r[k] == FileOf(folder, sel[k].0, sel[k].1)
  {
    seq(|sel|, k requires 0 <= k < |sel| => FileOf(folder, sel[k].0, sel[k].1))
  }

  /** Every collected file is built from a pair the walk selects: an article file inside a
      sub-folder of the source. Conversely, every article file of a sub-folder is
      collected. */
  lemma {:induction false} CollectArticlesMeaning(folder: Path, entries: seq<Entry>, ext: string)
    ensures var r := CollectArticles(folder, entries, ext); var sel := Selected(entries, ArticleFilter(ext));
      |r| == |sel| && forall k :: 0 <= k < |r| ==> (r[k] == FileOf(folder, sel[k].0, sel[k].1)
        && sel[k].0 in entries && sel[k].0.kind == Directory && sel[k].1 in sel[k].0.children
        && IsArticleFile(sel[k].1, ext))
    ensures forall i, j :: (0 <= i < |entries| && entries[i].kind == Directory && 0 <= j < |entries[i].children|
      && IsArticleFile(entries[i].children[j], ext)) ==>
      FileOf(folder, entries[i], entries[i].children[j]) in CollectArticles(folder, entries, ext)
  {
    var keep := ArticleFilter(ext);
    var sel := Selected(entries, keep);
    var r := FilesOf(folder, sel);
    forall k | 0 <= k < |r|
      ensures IsArticleFile(sel[k].1, ext)
    {
      assert keep(sel[k].1);
    }
    forall i, j | 0 <= i < |entries| && entries[i].kind == Directory && 0 <= j < |entries[i].children|
      && IsArticleFile(entries[i].children[j], ext)
      ensures FileOf(folder, entries[i], entries[i].children[j]) in r
    {
      assert keep(entries[i].children[j]);
      var k :| 0 <= k < |sel| && sel[k] == (entries[i], entries[i].children[j]);
      assert r[k] == FileOf(folder, entries[i], entries[i].children[j]);
    }
  }

  /** Files lying directly in the source folder are never collected. */
  lemma {:induction false} TopLevelFilesIgnored(entries: seq<Entry>, keep: Entry -> bool)
    requires forall i :: 0 <= i < |entries| ==> entries[i].kind != Directory
    ensures Selected(entries, keep) == []
  {
    if entries != [] {
      TopLevelFilesIgnored(entries[1..], keep);
    }
  }

  /** The same rule read off the name, for an extension made of a dot and dot-free
      characters: the name ends with `ext` in any letter case, and before that extension
      it has at least three characters, the first three being `PMC` in any letter case. */
  lemma ArticleFileByName(f: Entry, ext: string)
    requires |ext| >= 2 && ext[0] == '.' && forall k :: 1 <= k < |ext| ==> ext[k] != '.'
    ensures IsArticleFile(f, ext) <==> (f.kind == RegularFile && |f.name| >= 3 + |ext|
      && Upper(f.name[..3]) == "PMC" && Upper(f.name[|f.name| - |ext|..]) == ext)
  {
    if |f.name| >= 3 + |ext| && Upper(f.name[..3]) == "PMC" && Upper(f.name[|f.name| - |ext|..]) == ext {
      NameHasExtension(f.name, ext);
    }
    if Upper(Suffix(f.name)) == ext && StartsWith(Upper(Stem(f.name)), "PMC") {
      ExtensionHasName(f.name, ext);
    }
  }

  lemma NameHasExtension(name: string, ext: string)
    requires |ext| >= 2 && ext[0] == '.' && forall k :: 1 <= k < |ext| ==> ext[k] != '.'
    requires |name| >= 3 + |ext| && Upper(name[..3]) == "PMC" && Upper(name[|name| - |ext|..]) == ext
    ensures Upper(Suffix(name)) == ext && StartsWith(Upper(Stem(name)), "PMC")
  {
    var n := |name| - |ext|;
    ExtensionAt(name, n, ext);
    SuffixOf(name, n);
    UpperSlice(name, 0, n);
    UpperSlice(name, 0, 3);
    assert Upper(name[..n])[..3] == Upper(name)[..3] == Upper(name[..3]);
  }

  lemma ExtensionHasName(name: string, ext: string)
    requires |ext| >= 2
    requires Upper(Suffix(name)) == ext && StartsWith(Upper(Stem(name)), "PMC")
    ensures |name| >= 3 + |ext| && Upper(name[..3]) == "PMC" && Upper(name[|name| - |ext|..]) == ext
  {
    var i := RFindDot(name);
    assert |Suffix(name)| == |ext|;
    assert 0 < i < |name| - 1;
    assert Suffix(name) == name[i..] && Stem(name) == name[..i];
    assert i == |name| - |ext|;
    var st := name[..i];
    assert |Upper(st)| >= 3;
    assert st[..3] == name[..3];
    UpperSlice(st, 0, 3);
  }

  /** An extension in any case at position `n` puts the last dot of the name there. */
  lemma ExtensionAt(name: string, n: nat, ext: string)
    requires n + |ext| == |name| && Upper(name[n..]) == ext
    requires |ext| >= 2 && ext[0] == '.' && forall k :: 1 <= k < |ext| ==> ext[k] != '.'
    ensures name[n] == '.' && '.' !in name[n + 1..]
  {
    assert UpperChar(name[n]) == Upper(name[n..])[0] == '.';
    var t := name[n + 1..];
    forall k | 0 <= k < |t|
      ensures t[k] != '.'
    {
      assert t[k] == name[n + 1 + k];
      assert UpperChar(t[k]) == Upper(name[n..])[k + 1] == ext[k + 1];
    }
  }

  /** Collecting files ignores the letter case of their names. */
  lemma ArticleFileIgnoresCase(f: Entry, f': Entry, ext: string)
    requires f.kind == f'.kind && SameUpToCase(f.name, f'.name)
    ensures IsArticleFile(f, ext) <==> IsArticleFile(f', ext)
  {
    SuffixStemIgnoreCase(f.name, f'.name);
  }

  /** The extension `convert` looks for. */
  const XmlExt := ".XML"

  /** The dictionary `_parse_article` fills, before Nones are dropped. `year` is computed
      before `issn`, so a missing year is the error reported when both fail. Unlike the
      extractors of the helper module, `category` and `doi` take the first node only, and
      the ISSN join keeps text-less nodes, which makes it raise. */
  function RawArticle(root: Doc): (r: Outcome<map<string, Option<Value>>>)
    ensures r.Raise? <==> ExtractYear(root).Raise? || exists i :: 0 <= i < |root.issns| && root.issns[i].text.None?
    ensures r.Raise? && ExtractYear(root).Raise? ==> r.error == ExtractYear(root).error
    ensures r.Ok? ==> r.value.Keys == ArticleKeys
    ensures r.Ok? ==> r.value["year"] == Some(IntV(ExtractYear(root).value))
    ensures r.Ok? ==> r.value["referenceCounts"] == Some(IntV(|root.references|))
    ensures r.Ok? ==> r.value["doi"] == Str(FirstText(root.dois)) && r.value["category"] == Str(FirstText(root.subjects))
    ensures r.Ok? ==> r.value["issn"] == Str(JoinedTexts(root.issns))
    ensures r.Ok? && r.value["body"].Some? ==> r.value["body"].value.ListV?
  {
    var year := ExtractYear(root);
    if year.Raise? then Raise(year.error)
    else
      var issn := StrictJoinedTexts(root.issns);
      if issn.Raise? then Raise(issn.error)
      else
        Ok(ArticleDict(Str(FirstText(root.pmcIds)), Str(FirstText(root.journalTitles)), Str(FirstText(root.volumes)),
          Str(FirstText(root.issues)), Some(IntV(year.value)), Str(FirstText(root.subjects)), Str(FirstText(root.dois)),
          Str(issn.value), Str(ExtractAuthors(root)), Str(ExtractTitle(root)), List(ExtractAbstract(root)),
          List(ExtractBody(root)), Some(IntV(|root.references|))))
  }

  /** The dictionary literal of `_parse_article`, one argument per key. */
  function ArticleDict(id: Option<Value>, journal: Option<Value>, volume: Option<Value>, issue: Option<Value>,
    year: Option<Value>, category: Option<Value>, doi: Option<Value>, issn: Option<Value>, authors: Option<Value>,
    title: Option<Value>, abstr: Option<Value>, body: Option<Value>, referenceCounts: Option<Value>): (r: map<string, Option<Value>>)
    ensures r.Keys == ArticleKeys
    ensures r["year"] == year && r["referenceCounts"] == referenceCounts && r["body"] == body
    ensures r["doi"] == doi && r["category"] == category && r["issn"] == issn
  {
    map["id" := id, "journal" := journal, "volume" := volume, "issue" := issue, "year" := year,
      "category" := category, "doi" := doi, "issn" := issn, "authors" := authors, "title" := title,
      "abstract" := abstr, "body" := body, "referenceCounts" := referenceCounts]
  }

  /** The keys `_parse_article` can produce. */
  const ArticleKeys: set<string> := {"id", "journal", "volume", "issue", "year", "category", "doi", "issn",
    "authors", "title", "abstract", "body", "referenceCounts"}

  /** `_parse_article`: read, parse (with the bytes retry), extract, drop the Nones. The
      result never holds None and always holds `year` and `referenceCounts`. */
  function ParseArticle(file: ArticleFile, p: XmlParser): (r: Outcome<Article>)
    ensures r.Ok? <==> (file.content.Ok? && PipelineHelper.ParseXml(file.content.value, p).Ok?
      && RawArticle(PipelineHelper.ParseXml(file.content.value, p).value).Ok?)
    ensures r.Ok? ==> r.value == DropNoneValues(RawArticle(PipelineHelper.ParseXml(file.content.value, p).value).value)
    ensures r.Ok? ==> r.value.Keys <= ArticleKeys && "year" in r.value && "referenceCounts" in r.value
    ensures r.Ok? ==> r.value["referenceCounts"] == IntV(|PipelineHelper.ParseXml(file.content.value, p).value.references|)
    ensures r.Ok? ==> BodyHasLength(r.value)
  {
    if file.content.Raise? then Raise(file.content.error)
    else
      var root := PipelineHelper.ParseXml(file.content.value, p);
      if root.Raise? then Raise(root.error)
      else
        var raw := RawArticle(root.value);
        if raw.Raise? then Raise(raw.error)
        else Ok(DropNoneValues(raw.value))
  }

  /** `_parse_article_safe`: any exception becomes the empty article; a parsed article is
      never empty. */
  function ParseArticleSafe(file: ArticleFile, p: XmlParser): (r: Article)
    ensures r == map[] <==> ParseArticle(file, p).Raise?
    ensures ParseArticle(file, p).Ok? ==> r == ParseArticle(file, p).value
  {
    match ParseArticle(file, p)
    case Ok(a) => a
    case Raise(_) => map[]
  }

  /** A missing publication year loses the whole article, not just its `year`, while the
      per-field pipeline loses only that field. */
  lemma MissingYearLosesArticle(file: ArticleFile, p: XmlParser)
    requires file.content.Ok? && PipelineHelper.ParseXml(file.content.value, p).Ok?
    requires PipelineHelper.ParseXml(file.content.value, p).value.yearTexts == []
    ensures ParseArticleSafe(file, p) == map[]
    ensures Run(Year, PipelineHelper.ParseXml(file.content.value, p).value).Raise?
  {
  }

  /** A text-less ISSN node makes the `;`-join raise, and the whole article is lost. */
  lemma TextlessIssnLosesArticle(file: ArticleFile, p: XmlParser, i: nat)
    requires file.content.Ok? && PipelineHelper.ParseXml(file.content.value, p).Ok?
    requires i < |PipelineHelper.ParseXml(file.content.value, p).value.issns|
    requires PipelineHelper.ParseXml(file.content.value, p).value.issns[i].text.None?
    ensures ParseArticleSafe(file, p) == map[]
  {
  }

  /** The articles `main` hands to `_save_articles`: one per collected file, `{}` for a
      file that failed. */
  function ParsedArticles(files: seq<ArticleFile>, p: XmlParser): (r: seq<Article>)
    ensures |r| == |files|
    ensures forall k :: 0 <= k < |r| ==> BodyHasLength(r[k])
    ensures forall k :: 0 <= k < |r| ==> (r[k] == map[] <==> ParseArticle(files[k], p).Raise?)
  {
    seq(|files|, k requires 0 <= k < |files| => ParseArticleSafe(files[k], p))
  }

  /** A `-dest_pattern` as `pattern.format(id = fp_i)` treats it: one `{id}` or `{id:0W}`
      field between two fixed texts; no replacement field at all, so that every index
      gives the same name; or a field other than `id`, for which `format` raises
      `KeyError`. */
  datatype Pattern =
    | Padded(prefix: string, width: nat, suffix: string)
    | Fixed(name: string)
    | OtherField(key: string)

  /** The command line's default, `oas.{id:02}.jsonl`. */
  const DefaultPattern := Padded("oas.", 2, ".jsonl")

  /** `pattern.format(id = i)` */
  function Format(pattern: Pattern, i: nat): (r: Outcome<string>)
    ensures r.Raise? <==> pattern.OtherField?
    ensures r.Raise? ==> r.error == MissingKey(pattern.key)
    ensures pattern.Fixed? ==> r == Ok(pattern.name)
  {
    match pattern
    case Padded(prefix, width, suffix) => Ok(prefix + ZeroPad(i, width) + suffix)
    case Fixed(name) => Ok(name)
    case OtherField(key) => Raise(MissingKey(key))
  }

  /** The name of file `i`, for a pattern that formats. */
  function FileName(pattern: Pattern, i: nat): string
    requires !pattern.OtherField?
  {
    Format(pattern, i).value
  }

  /** With one `{id}` field, different indices give different file names, so no file is
      opened twice. */
  lemma FileNamesDistinct(pattern: Pattern, i: nat, j: nat)
    requires pattern.Padded? && FileName(pattern, i) == FileName(pattern, j)
    ensures i == j
  {
    var a := ZeroPad(i, pattern.width);
    var b := ZeroPad(j, pattern.width);
    var n := FileName(pattern, i);
    assert |a| == |b|;
    assert n[|pattern.prefix|..|pattern.prefix| + |a|] == a;
    assert n[|pattern.prefix|..|pattern.prefix| + |b|] == b;
    ZeroPadInjective(i, j, pattern.width);
  }

  /** The files on disk once files `0, 1, ...` were opened with `'w'` under `names` and
      written, in that order: opening a name again truncates it, so each name keeps the
      last file opened under it. */
  function Disk(names: seq<string>, files: seq<seq<Article>>): (d: map<string, seq<Article>>)
    requires |names| == |files|
    ensures forall n :: n in d <==> n in names
  {
    if names == [] then map[]
    else
      var k := |names| - 1;
      assert forall n :: n in names <==> n in names[..k] || n == names[k];
      Disk(names[..k], files[..k])[names[k] := files[k]]
  }

  /** With distinct names, every file is on disk as it was written. */
  lemma {:induction false} DiskDistinct(names: seq<string>, files: seq<seq<Article>>)
    requires |names| == |files|
    requires forall i, j :: 0 <= i < |names| && 0 <= j < |names| && names[i] == names[j] ==> i == j
    ensures forall i :: 0 <= i < |names| ==> Disk(names, files)[names[i]] == files[i]
  {
    if names != [] {
      var k := |names| - 1;
      DiskDistinct(names[..k], files[..k]);
      forall i | 0 <= i < k
        ensures Disk(names, files)[names[i]] == files[i]
      {
        assert names[..k][i] == names[i] && files[..k][i] == files[i];
        assert names[i] != names[k];
      }
    }
  }

  /** When every file has the same name, only the last file written survives. */
  lemma {:induction false} DiskOneName(names: seq<string>, files: seq<seq<Article>>, name: string)
    requires |names| == |files| && names != [] && forall i :: 0 <= i < |names| ==> names[i] == name
    ensures Disk(names, files) == map[name := files[|files| - 1]]
  {
    var k := |names| - 1;
    var d := Disk(names[..k], files[..k]);
    assert forall n :: n in d ==> n == name;
  }

  lemma DefaultFileNames()
    ensures FileName(DefaultPattern, 0) == "oas.00.jsonl"
    ensures FileName(DefaultPattern, 7) == "oas.07.jsonl"
  {
    assert NatToString(0) == "0" && NatToString(7) == "7";
    assert Zeros(1) == "0";
  }

  /** The files after `article` was written to the last one. */
  function AppendToLast(files: seq<seq<Article>>, article: Article): (r: seq<seq<Article>>)
    requires files != []
    ensures |r| == |files| && forall i :: 0 <= i < |files| - 1 ==> r[i] == files[i]
    ensures r[|r| - 1] == files[|files| - 1] + [article]
    ensures Flatten(r) == Flatten(files) + [article]
  {
    var last := |files| - 1;
    FlattenAppend(files[..last], [files[last]]);
    FlattenAppend(files[..last], [files[last] + [article]]);
    assert files[..last] + [files[last]] == files;
    files[..last] + [files[last] + [article]]
  }

  /** The files after `article` reached the open one: written there when it has a body. */
  function Received(files: seq<seq<Article>>, article: Article): seq<seq<Article>>
    requires files != []
  {
    if HasBody(article) then AppendToLast(files, article) else files
  }

  /** The rotation invariant over the state of `_save_articles`: the pattern formats, and
      file `i` is named with index `i`; every file before `fp_i` was closed by rotation; with `count >= 1` those
      hold exactly `count` articles and the open one fewer; with `count <= 0` no file stays
      open and each holds at most one article; the files together hold exactly the
      articles yielded. */
  ghost predicate Rotation(pattern: Pattern, count: int, names: seq<string>, files: seq<seq<Article>>,
    fpI: nat, fpArticles: int, isOpen: bool, written: seq<Article>)
  {
    && !pattern.OtherField?
    && |names| == |files| && (forall i :: 0 <= i < |files| ==> names[i] == FileName(pattern, i))
    && |files| == fpI + (if isOpen then 1 else 0)
    && (files != [] ==> fpArticles == |files[|files| - 1]|)
    && Flatten(files) == written
    && (count >= 1 ==> forall i :: 0 <= i < fpI ==> |files[i]| == count)
    && (count >= 1 && isOpen ==> fpArticles < count)
    && (count <= 0 ==> !isOpen && forall i :: 0 <= i < |files| ==> |files[i]| <= 1)
  }

  /** What the rotation invariant says about the files once the input ends. */
  lemma RotationMeans(pattern: Pattern, count: int, names: seq<string>, files: seq<seq<Article>>,
    fpI: nat, fpArticles: int, isOpen: bool, written: seq<Article>)
    requires Rotation(pattern, count, names, files, fpI, fpArticles, isOpen, written)
    ensures Flatten(files) == written
    ensures fpI <= |files| <= fpI + 1
    ensures count >= 1 ==> forall i :: 0 <= i < fpI ==> |files[i]| == count
    ensures count >= 1 ==> forall i :: fpI <= i < |files| ==> |files[i]| < count
    ensures count <= 0 ==> fpI == |files| && forall i :: 0 <= i < |files| ==> |files[i]| <= 1
    ensures |names| == |files| && forall i :: 0 <= i < |files| ==> names[i] == FileName(pattern, i)
  {
  }

  /** `fp_articles` after one turn of the loop. */
  function ArticlesInFile(fpArticles: int, isOpen: bool, article: Article): int {
    (if isOpen then fpArticles else 0) + (if HasBody(article) then 1 else 0)
  }

  /** One turn of the loop keeps the rotation invariant. */
  lemma PutKeepsRotation(pattern: Pattern, count: int, names: seq<string>, files: seq<seq<Article>>,
    fpI: nat, fpArticles: int, isOpen: bool, written: seq<Article>, article: Article,
    names': seq<string>, files': seq<seq<Article>>, fpI': nat, fpArticles': int, isOpen': bool, written': seq<Article>)
    requires Rotation(pattern, count, names, files, fpI, fpArticles, isOpen, written)
    requires names' == if isOpen then names else names + [FileName(pattern, fpI)]
    requires files' == Received(if isOpen then files else files + [[]], article)
    requires written' == written + if HasBody(article) then [article] else []
    requires fpArticles' == ArticlesInFile(fpArticles, isOpen, article)
    requires isOpen' == (fpArticles' < count) && fpI' == fpI + if isOpen' then 0 else 1
    ensures Rotation(pattern, count, names', files', fpI', fpArticles', isOpen', written')
  {
    var current := if isOpen then files else files + [[]];
    if !isOpen {
      NamesExtend(names, pattern);
      FlattenAppend(files, [[]]);
    }
    CurrentFile(files, fpI, fpArticles, isOpen);
    ReceivedFacts(current, article);
  }

  /** The files once `fp` is open: a fresh empty file is added when none was open. */
  lemma CurrentFile(files: seq<seq<Article>>, fpI: nat, fpArticles: int, isOpen: bool)
    requires |files| == fpI + (if isOpen then 1 else 0)
    requires files != [] ==> fpArticles == |files[|files| - 1]|
    ensures var current := if isOpen then files else files + [[]];
      && |current| == fpI + 1 && |current[fpI]| == (if isOpen then fpArticles else 0)
      && forall i :: 0 <= i < fpI ==> current[i] == files[i]
  {
  }

  /** What `Received` does to the last file and to the others. */
  lemma ReceivedFacts(current: seq<seq<Article>>, article: Article)
    requires current != []
    ensures var r := Received(current, article);
      && |r| == |current| && (forall i :: 0 <= i < |current| - 1 ==> r[i] == current[i])
      && |r[|r| - 1]| == |current[|current| - 1]| + (if HasBody(article) then 1 else 0)
      && Flatten(r) == Flatten(current) + (if HasBody(article) then [article] else [])
  {
  }

  /** The state `_save_articles` keeps while it runs: the file names opened and what each
      file received (by index `fp_i`), `fp_i`, `fp_articles`, whether `fp` is set, and the
      articles yielded. */
  class ArticleFiles {
    const pattern: Pattern
    const count: int
    var names: seq<string>
    var files: seq<seq<Article>>
    var fpI: nat
    var fpArticles: int
    var isOpen: bool
    var closed: bool
    var written: seq<Article>

    /** The rotation invariant holds of the current state. */
    ghost predicate Valid()
      reads this
    {
      Rotation(pattern, count, names, files, fpI, fpArticles, isOpen, written)
    }

    constructor(pattern: Pattern, count: int)
      requires !pattern.OtherField?
      ensures Valid() && !closed
      ensures this.pattern == pattern && this.count == count
      ensures names == [] && files == [] && fpI == 0 && fpArticles == 0 && !isOpen && written == []
    {
      this.pattern := pattern;
      this.count := count;
      names := [];
      files := [];
      fpI := 0;
      fpArticles := 0;
      isOpen := false;
      closed := false;
      written := [];
    }

    /** One turn of the loop: open a file if none is open, write the article if it has a
        body, rotate when the file has `count` articles. */
    method Put(article: Article)
      requires Valid() && !closed && BodyHasLength(article)
      modifies this
      ensures Valid() && !closed
      ensures files == Received(if old(isOpen) then old(files) else old(files) + [[]], article)
      ensures files != [] && |files| <= |old(files)| + 1
      ensures names == if old(isOpen) then old(names) else old(names) + [FileName(pattern, old(fpI))]
      ensures written == old(written) + if HasBody(article) then [article] else []
      ensures fpArticles == ArticlesInFile(old(fpArticles), old(isOpen), article)
      ensures isOpen == (fpArticles < count)
      ensures fpI == old(fpI) + if isOpen then 0 else 1
    {
      if !isOpen {
        names := names + [FileName(pattern, fpI)];
        files := files + [[]];
        isOpen := true;
        fpArticles := 0;
      }
      if HasBody(article) {
        files := AppendToLast(files, article);
        fpArticles := fpArticles + 1;
        written := written + [article];
      }
      if fpArticles >= count {
        isOpen := false;
        fpI := fpI + 1;
      }
      PutKeepsRotation(pattern, count, old(names), old(files), old(fpI), old(fpArticles), old(isOpen), old(written), article,
        names, files, fpI, fpArticles, isOpen, written);
    }

    /** After the last article: the file still open, if any, is closed. */
    method Finish()
      requires Valid() && !closed
      modifies this
      ensures Valid() && closed
      ensures names == old(names) && files == old(files) && fpI == old(fpI) && isOpen == old(isOpen)
      ensures fpArticles == old(fpArticles) && written == old(written)
    {
      closed := true;
    }
  }

  lemma NamesExtend(names: seq<string>, pattern: Pattern)
    requires !pattern.OtherField?
    requires forall i :: 0 <= i < |names| ==> names[i] == FileName(pattern, i)
    ensures forall i :: 0 <= i < |names| + 1 ==> (names + [FileName(pattern, |names|)])[i] == FileName(pattern, i)
  {
  }

  lemma FilterStep(articles: seq<Article>, k: nat)
    requires k < |articles|
    ensures Filter(HasBody, articles[..k + 1]) == Filter(HasBody, articles[..k]) + if HasBody(articles[k]) then [articles[k]] else []
  {
    FilterAppend(HasBody, articles[..k], [articles[k]]);
    assert articles[..k + 1] == articles[..k] + [articles[k]];
  }

  /** The loop of `_save_articles`: every article passes through the writer in order. */
  method Feed(w: ArticleFiles, articles: seq<Article>)
    requires w.Valid() && !w.closed && w.files == [] && w.written == []
    requires forall k :: 0 <= k < |articles| ==> BodyHasLength(articles[k])
    modifies w
    ensures w.Valid() && !w.closed
    ensures w.written == Filter(HasBody, articles)
    ensures |w.files| <= |articles| && (articles != [] <==> w.files != [])
  {
    for k := 0 to |articles|
      invariant w.Valid() && !w.closed
      invariant w.written == Filter(HasBody, articles[..k])
      invariant |w.files| <= k && (k > 0 <==> w.files != [])
    {
      w.Put(articles[k]);
      FilterStep(articles, k);
    }
    assert articles[..|articles|] == articles;
  }

  /** `_save_articles`: the names and contents of the files written, the articles
      yielded, and the number of rotations. A pattern that does not format raises at the
      first article, before any file is opened. */
  method SaveArticles(pattern: Pattern, count: int, articles: seq<Article>)
    returns (outcome: Outcome<()>, names: seq<string>, files: seq<seq<Article>>, yielded: seq<Article>, rotations: nat)
    requires forall k :: 0 <= k < |articles| ==> BodyHasLength(articles[k])
    ensures outcome.Raise? <==> pattern.OtherField? && articles != []
    ensures outcome.Raise? ==> outcome.error == MissingKey(pattern.key) && files == [] && yielded == []
    ensures outcome.Ok? ==> yielded == Filter(HasBody, articles) && (files == [] <==> articles == [])
    ensures Flatten(files) == yielded
    ensures |files| <= |articles|
    ensures rotations <= |files| <= rotations + 1
    ensures count >= 1 ==> forall i :: 0 <= i < rotations ==> |files[i]| == count
    ensures count >= 1 ==> forall i :: rotations <= i < |files| ==> |files[i]| < count
    ensures count <= 0 ==> rotations == |files| && forall i :: 0 <= i < |files| ==> |files[i]| <= 1
    ensures |names| == |files| && (!pattern.OtherField? ==> forall i :: 0 <= i < |files| ==> names[i] == FileName(pattern, i))
  {
    if pattern.OtherField? {
      outcome := if articles == [] then Ok(()) else Raise(MissingKey(pattern.key));
      return outcome, [], [], [], 0;
    }
    var w := new ArticleFiles(pattern, count);
    Feed(w, articles);
    w.Finish();
    RotationMeans(pattern, count, w.names, w.files, w.fpI, w.fpArticles, w.isOpen, w.written);
    outcome, names, files, yielded, rotations := Ok(()), w.names, w.files, w.written, w.fpI;
  }

  /** `int(count / 100)`: true division truncated toward zero, which is 0 exactly for
      counts strictly between -100 and 100. */
  function UpdateFreq(count: int): (r: int)
    ensures r == 0 <==> -100 < count < 100
    ensures count >= 100 ==> 1 <= r <= count
  {
    if count >= 0 then count / 100 else -((-count) / 100)
  }

  /** `_progress_bar`: count the articles as they pass. `bar_i % update_freq` raises
      `ZeroDivisionError` at the first article when the frequency is 0; the bar updates
      themselves are display only. */
  method ProgressBar(articles: seq<Article>, updateFreq: int) returns (r: Outcome<nat>)
    ensures r.Raise? <==> updateFreq == 0 && articles != []
    ensures r.Raise? ==> r.error == ZeroDivision
    ensures r.Ok? ==> r.value == |articles|
  {
    var barI := 0;
    for k := 0 to |articles|
      invariant barI == k
      invariant k > 0 ==> updateFreq != 0
    {
      barI := barI + 1;
      if updateFreq == 0 {
        return Raise(ZeroDivision);
      }
    }
    return Ok(barI);
  }

  /** The articles `_save_articles` reads before it yields its first article: up to and
      including the first one with a body, or all of them when none has one. */
  function {:induction false} UntilFirstBody(articles: seq<Article>): (r: seq<Article>)
    ensures |r| <= |articles| && r == articles[..|r|]
    ensures Filter(HasBody, r) == if Filter(HasBody, articles) == [] then [] else [Filter(HasBody, articles)[0]]
    ensures Filter(HasBody, articles) == [] ==> r == articles
  {
    if articles == [] then []
    else if HasBody(articles[0]) then
      assert Filter(HasBody, [articles[0]]) == [articles[0]] by {
        assert [articles[0]][1..] == [];
      }
      [articles[0]]
    else
      var rest := UntilFirstBody(articles[1..]);
      assert ([articles[0]] + rest)[1..] == rest;
      [articles[0]] + rest
  }

  /** The articles `main` parses: one per collected `.xml` file, `{}` for a failure. */
  function MainArticles(folder: Path, entries: seq<Entry>, p: XmlParser): seq<Article> {
    ParsedArticles(CollectArticles(folder, entries, XmlExt), p)
  }

  /** `main`: collect, parse, save, and count through the progress bar, all lazily.
      - A pattern that does not format raises `KeyError` at the first article, and no
        file is written.
      - Otherwise an update frequency of 0 raises `ZeroDivisionError` at the first article
        with a body, which `_save_articles` has already written; nothing after it is read.
      - Otherwise the files hold, in collection order, exactly the parsed articles that
        have a body. With one `{id}` field they all stay on disk as written; with no field
        each rotation truncates the one file, and only the last file's articles remain. */
  method ConvertFolder(folder: Path, entries: seq<Entry>, p: XmlParser, pattern: Pattern, count: int)
    returns (outcome: Outcome<()>, names: seq<string>, files: seq<seq<Article>>)
    ensures pattern.OtherField? ==> files == [] && (outcome.Raise? <==> MainArticles(folder, entries, p) != [])
    ensures pattern.OtherField? && outcome.Raise? ==> outcome.error == MissingKey(pattern.key)
    ensures !pattern.OtherField? ==>
      (outcome.Raise? <==> -100 < count < 100 && Filter(HasBody, MainArticles(folder, entries, p)) != [])
    ensures !pattern.OtherField? && outcome.Raise? ==> (outcome.error == ZeroDivision
      && Flatten(files) == [Filter(HasBody, MainArticles(folder, entries, p))[0]])
    ensures outcome.Ok? ==> Flatten(files) == Filter(HasBody, MainArticles(folder, entries, p))
    ensures |names| == |files| && (!pattern.OtherField? ==> forall i :: 0 <= i < |files| ==> names[i] == FileName(pattern, i))
    ensures pattern.Padded? ==> forall i :: 0 <= i < |files| ==> Disk(names, files)[names[i]] == files[i]
    ensures pattern.Fixed? && files != [] ==> Disk(names, files) == map[pattern.name := files[|files| - 1]]
  {
    outcome, names, files := SaveAndCount(pattern, count, MainArticles(folder, entries, p));
  }

  /** The lazy chain of `main` after parsing: `_save_articles` feeding `_progress_bar`. */
  method SaveAndCount(pattern: Pattern, count: int, articles: seq<Article>)
    returns (outcome: Outcome<()>, names: seq<string>, files: seq<seq<Article>>)
    requires forall k :: 0 <= k < |articles| ==> BodyHasLength(articles[k])
    ensures pattern.OtherField? ==> files == [] && (outcome.Raise? <==> articles != [])
    ensures pattern.OtherField? && outcome.Raise? ==> outcome.error == MissingKey(pattern.key)
    ensures !pattern.OtherField? ==> (outcome.Raise? <==> -100 < count < 100 && Filter(HasBody, articles) != [])
    ensures !pattern.OtherField? && outcome.Raise? ==> (outcome.error == ZeroDivision
      && Flatten(files) == [Filter(HasBody, articles)[0]])
    ensures outcome.Ok? ==> Flatten(files) == Filter(HasBody, articles)
    ensures |names| == |files| && (!pattern.OtherField? ==> forall i :: 0 <= i < |files| ==> names[i] == FileName(pattern, i))
    ensures pattern.Padded? ==> forall i :: 0 <= i < |files| ==> Disk(names, files)[names[i]] == files[i]
    ensures pattern.Fixed? && files != [] ==> Disk(names, files) == map[pattern.name := files[|files| - 1]]
  {
    var freq := UpdateFreq(count);
    var read := if freq == 0 then UntilFirstBody(articles) else articles;
    assert forall k :: 0 <= k < |read| ==> read[k] == articles[k];
    var saved, yielded, rotations;
    saved, names, files, yielded, rotations := SaveArticles(pattern, count, read);
    if saved.Raise? {
      return Raise(saved.error), names, files;
    }
    var counted := ProgressBar(yielded, freq);
    outcome := if counted.Raise? then Raise(counted.error) else Ok(());
    if !pattern.OtherField? {
      DiskOfPattern(pattern, names, files);
    }
  }

  /** What the disk holds for files named by a pattern that formats. */
  lemma DiskOfPattern(pattern: Pattern, names: seq<string>, files: seq<seq<Article>>)
    requires !pattern.OtherField? && |names| == |files| && forall i :: 0 <= i < |files| ==> names[i] == FileName(pattern, i)
    ensures pattern.Padded? ==> forall i :: 0 <= i < |files| ==> Disk(names, files)[names[i]] == files[i]
    ensures pattern.Fixed? && files != [] ==> Disk(names, files) == map[pattern.name := files[|files| - 1]]
  {
    if pattern.Padded? {
      forall i, j | 0 <= i < |names| && 0 <= j < |names| && names[i] == names[j]
        ensures i == j
      {
        FileNamesDistinct(pattern, i, j);
      }
      DiskDistinct(names, files);
    }
    if pattern.Fixed? && files != [] {
      DiskOneName(names, files, pattern.name);
    }
  }

  /** A file is opened before the body test, so an article without a body can leave an
      empty file: from the start state, an article without a body opens file 0, leaves
      it empty and is not yielded. */
  lemma EmptyFileForBodylessArticle(a: Article)
    requires !HasBody(a)
    ensures Received([] + [[]], a) == [[]] && ArticlesInFile(0, false, a) == 0
    ensures Filter(HasBody, [a]) == []
  {
  }
}
