# oas — a Dafny model of the PMC Open Access Subset tools

The repository turns the PubMed Central Open Access Subset (JATS XML articles) into
corpora. It has a small library (`src/oas/utils`), the `convert` mode (`src/oas/mode`),
the settings objects of the command line (`src/oas/dtypes`), and several stand-alone
scripts (`code/`). This project models what happens between the XML parser and the disk:

- field extraction and the null-conditional macros `_nct`, `_ncs` and `_ncls`;
- the per-document extraction pipeline;
- the selection rules for tar balls, tar members and JATS files;
- the CSV row projection;
- the article dictionary each script builds;
- the file-rotation loop of `_save_articles`;
- the sentence/paragraph text format of the corpus script;
- the tokenized-article reshaping;
- the `Convert` and `Metadata` settings validators.

Conventions:

- **Exceptions.** A Python exception is a value: `PyCore.Outcome<T>` is `Ok(value)` or
  `Raise(exception)`. A `try`/`except` becomes a `match`.
- **The XML tree is abstract.** `Jats.Doc` holds, for every path the code queries, the
  sequence of nodes that path matches, in document order. A node is its optional `.text`
  and its descendant texts. An author node is its `given-names` and `surname` texts.
- **Foreign functions are parameters.**
  - `etree.fromstring` is a pair of functions, one on `str` and one on UTF-8 bytes.
  - The NLTK tokenizers are function-typed parameters.
  - A folder listing is a sequence of entries with their content.
- **Python built-ins.** The built-ins the code relies on are written out in `PyStr`,
  `PyInt` and `PyPath`, with lemmas stating the properties the code depends on:
  - `str.strip`, `str.split()` and `str.join`;
  - `str.upper` and `str.lower` on ASCII letters (each idempotent; names equal up to
    case agree everywhere except on letters);
  - `int(...)` and `min`;
  - zero-padded `format`;
  - `pathlib`'s `suffix`, `stem` and `parent`.
- **Strings and dictionaries.** Python strings are `string`. Dictionaries are `map`s,
  except the extractor dictionary of the pipeline: its iteration order matters, so it is
  a sequence of distinct (name, extractor) pairs.
- **Loops and objects.** Loops that build a result step by step are `method`s with loop
  invariants, proved equal to a specification function. The state of `_save_articles` is
  the class `ConvertMode.ArticleFiles`, and the settings objects are classes.

Points where the code behaves differently from what one might assume:

- **Per-field failures.** The pipeline of `src/oas/utils/pipeline_helper.py` is lenient
  per field: `_extractor_safe` turns a raising extractor into a missing field, and the
  article is still emitted. The whole document is discarded only when no field has a
  value.
- **Parsing.** The parser falls back once, to UTF-8 bytes, and only on `ValueError`.
  No third, recovering parser exists, and no "Bad XML" error record is produced.
- **Rotation.** `_save_articles` rotates on the number of articles written, not on a
  count of lines. Its files hold one JSON article per line.
- **Sentences.** Sentences come from NLTK's Punkt tokenizer, and no hand-written
  segmentation rule exists in the code. The tokenizers are therefore uninterpreted
  parameters.
- **doi and category.** Three copies of the extraction code take only the first DOI or
  subject node, while `extract_helper.py` joins all of them. Both forms are modelled,
  each where the code uses it.
- **Blank lines.** The tokenizing scripts emit an empty line only for a blank
  paragraph, not between paragraphs (see "## Findings").

## Model

| member | source | states |
|---|---|---|
| PyCore.Somes | src/oas/utils/extract_helper.py:26 | `[x for x in xs if x is not None]` keeps exactly the present values: every element of the result is present in the input, and every present value of the input is in the result. It is never longer than the input, and when every element is present it returns all of them, in order. |
| PyCore.SomesAppend | src/oas/utils/extract_helper.py:26 | Dropping the Nones of two runs gives the present values of the first run, then those of the second, so the order of the input is kept. |
| PyCore.Filter | src/oas/mode/convert.py:181-184 | Keeps only elements satisfying the test. Every one of them comes from the input, and every satisfying input element is kept. |
| PyCore.FilterAppend | src/oas/mode/convert.py:175-184 | A filter applied to a stream processed in two halves gives the two filtered halves, one after the other. |
| PyCore.FlattenAppend | src/oas/mode/convert.py:175-190 | Concatenating the contents of two runs of files equals concatenating the two runs' contents. |
| PyCore.FlatMapAppend | code/tokenize_oas_jsonl.py:72-80 | The lines generated from two runs of paragraphs are the two runs' lines, one after the other. |
| PyCore.MapAll | src/oas/utils/extract_helper.py:36 | Eager `map` of a raising function. It succeeds exactly when every element succeeds, and then maps element by element. Otherwise it raises the exception of the first failing element; every element before that one succeeds. |
| PyCore.FilterMap | src/oas/utils/pipeline_helper.py:9-12 | A generator that yields at most one item per input yields no more items than it reads. |
| PyCore.FilterMapAppend | src/oas/utils/pipeline_helper.py:9-12 | The generator's output on two runs of input is the two outputs, one after the other. |
| PyCore.FilterMapSnoc | src/oas/utils/pipeline_helper.py:9-12 | One more input item adds exactly its own result, if it has one, at the end. |
| PyCore.FilterMapSubsequence | src/oas/utils/pipeline_helper.py:9-12 | Every output item comes from its own input position. The positions strictly increase, so output order is a subsequence of input order. |
| PyStr.StripMeaning | src/oas/utils/extract_helper.py:78 | `str.strip()` never lengthens its input. Its result has no leading or trailing whitespace, and is empty exactly when the input is all whitespace. |
| PyStr.StripLeftMeaning | src/oas/utils/extract_helper.py:78 | Stripping the left side removes only a whitespace prefix and stops at the first non-space character. |
| PyStr.StripRightMeaning | src/oas/utils/extract_helper.py:78 | Stripping the right side removes only a whitespace suffix and stops at the last non-space character. |
| PyStr.StripIsInfix | src/oas/utils/extract_helper.py:78 | The stripped text is a contiguous slice of the input. Everything removed before and after it is whitespace. |
| PyStr.StripKeeps | src/oas/utils/extract_helper.py:87 | Text without outer whitespace is unchanged by `strip()`. |
| PyStr.StripIdempotent | src/oas/utils/extract_helper.py:87 | Stripping twice equals stripping once. |
| PyStr.StripLeftIdempotent | src/oas/utils/extract_helper.py:78 | Stripping the left side twice equals stripping it once. |
| PyStr.WordEnd | src/oas/utils/extract_helper.py:51 | The end of the leading word: every character before it is not whitespace, and the character there is whitespace. |
| PyStr.SplitWords | src/oas/utils/extract_helper.py:51 | Every piece `str.split()` returns is a non-empty word without whitespace. |
| PyStr.SplitEmpty | src/oas/utils/extract_helper.py:51 | `split()` returns no words exactly when the text is all whitespace. |
| PyStr.SplitStripLeft | src/oas/utils/extract_helper.py:51 | Leading whitespace does not change the words `split()` returns. |
| PyStr.SplitLeadingWord | src/oas/utils/extract_helper.py:51 | A word followed by whitespace (or by nothing) is the first piece of the split. |
| PyStr.SplitJoin | src/oas/utils/extract_helper.py:51 | Splitting the single-space join of words returns exactly those words. |
| PyStr.JoinSnoc | src/oas/utils/extract_helper.py:26 | Joining one more item appends the separator and that item. |
| PyStr.JoinWordsStart | src/oas/utils/extract_helper.py:51 | The single-space join of one or more words starts and ends with a non-space character. |
| PyStr.JoinWordsCollapsed | src/oas/utils/extract_helper.py:51 | The single-space join of words has no outer whitespace. Every whitespace character in it is a single space between two non-space characters. |
| PyStr.CollapseMeaning | src/oas/utils/extract_helper.py:51 | `' '.join(s.split())` is collapsed and has the same words as `s`. It is empty exactly when `s` is all whitespace. |
| PyStr.CollapsedHasNoOuterSpace | src/oas/utils/extract_helper.py:51 | Collapsed text has no leading or trailing whitespace, so `_ncs` keeps it as it is. |
| PyStr.SplitOn | src/oas/utils/extract_helper.py:26 | Splitting on a separator always gives at least one piece. |
| PyStr.SplitOnJoin | src/oas/utils/extract_helper.py:26 | Splitting a `;`-join on `;` recovers the joined texts when none of them contains `;`. |
| PyStr.JoinAll | src/oas/utils/extract_helper.py:31 | `str.join` over values that may be None raises exactly when some value is None. Otherwise it is the join of the values. |
| PyStr.UpperIdempotent | src/oas/utils/fs_helper.py:39 | Upper-casing twice equals upper-casing once, and upper-casing a lower-cased text equals upper-casing it directly. |
| PyStr.LowerIdempotent | src/oas/utils/fs_helper.py:20 | Lower-casing twice equals lower-casing once, and lower-casing an upper-cased text equals lower-casing it directly. |
| PyStr.SameUpToCaseMeaning | src/oas/utils/fs_helper.py:20 | Two texts with the same upper-case form have the same length and the same lower-case form, and agree on every character that is not a letter. |
| PyStr.UpperSlice | src/oas/mode/convert.py:38 | Changing case commutes with slicing, so upper-casing a stem or suffix is slicing the upper-cased name. |
| PyInt.DigitChar | src/oas/mode/convert.py:177 | The digit character of a value below ten is a digit and has that value. |
| PyInt.NatToString | src/oas/mode/convert.py:177 | The decimal rendering of a natural number is non-empty, made of digits, and without a leading zero. |
| PyInt.NatToStringValue | src/oas/mode/convert.py:177 | The decimal rendering of `n` denotes `n`. |
| PyInt.ParseInt | src/oas/utils/extract_helper.py:36 | `int(text)` fails only with the invalid-literal error naming that text. |
| PyInt.ParseIntToString | src/oas/utils/extract_helper.py:36 | `int(str(i)) == i` for every integer, negative ones included. |
| PyInt.ParsePlain | src/oas/utils/extract_helper.py:36 | A string of digits parses to its decimal value. |
| PyInt.ParseNegative | src/oas/utils/extract_helper.py:36 | A minus sign followed by digits parses to the negated decimal value. |
| PyInt.LeadingZeroValue | src/oas/utils/extract_helper.py:36 | A leading zero does not change the value of a digit string. |
| PyInt.LeadingZerosValue | src/oas/mode/convert.py:177 | Any number of leading zeros does not change the value of a digit string. |
| PyInt.ZeroPad | src/oas/mode/convert.py:177 | `{id:0W}` gives digits, at least `W` of them and at least as many as the plain rendering. |
| PyInt.ZeroPadValue | src/oas/mode/convert.py:177 | The zero-padded rendering of `n` denotes `n`. |
| PyInt.ZeroPadInjective | src/oas/mode/convert.py:177 | Different numbers have different zero-padded renderings. |
| PyInt.ParseAll | src/oas/utils/extract_helper.py:36 | Parsing every year text succeeds exactly when each text parses, element by element. Otherwise the error names one of the texts. |
| PyInt.Min | src/oas/utils/extract_helper.py:36 | `min` raises on an empty sequence. Otherwise it returns an element that is at most every element. |
| PyPath.RFindDot | src/oas/utils/fs_helper.py:20 | The position of the last `.` of a name, or -1 when there is none. |
| PyPath.Suffix | src/oas/utils/fs_helper.py:20 | `PurePath.suffix` is empty, or a dot followed by at least one character and no further dot. The name ends with it. |
| PyPath.Stem | src/oas/utils/fs_helper.py:21 | `stem + suffix` is the whole name. |
| PyPath.SuffixOf | src/oas/utils/fs_helper.py:20-21 | A last dot that is neither the first nor the last character splits the name into stem and suffix. |
| PyPath.RFindDotIgnoresCase | src/oas/utils/fs_helper.py:20 | Names equal up to letter case have their last `.` at the same position. |
| PyPath.SuffixStemIgnoreCase | src/oas/mode/convert.py:38 | Names equal up to letter case have suffixes and stems equal up to letter case. |
| PyPath.Parent | src/oas/dtypes/Metadata.py:36 | `parent` drops the last path component. The root, and the empty relative path, are their own parent. |
| Types.HeaderRowInjective | src/oas/utils/fs_helper.py:68 | Equal header rows come from equal field lists: the header names its columns, in order. |
| Types.AsRawRoundTrip | code/oas_to_jsonl.py:194-202 | Cleaning a dictionary that holds no None gives back that dictionary. |
| Types.DropNoneValuesLossless | src/oas/mode/convert.py:85 | Dropping the None values and lifting back gives the input exactly when the input held no None value. |
| Types.DropNoneValuesIdempotent | src/oas/mode/convert.py:85 | Dropping None values twice equals dropping them once. |
| ExtractHelper.Nct | src/oas/utils/extract_helper.py:69-78 | `_nct` is None exactly for an absent node or a node without text. Otherwise it is the stripped text, which has no outer whitespace. |
| ExtractHelper.Ncs | src/oas/utils/extract_helper.py:80-91 | `_ncs` is None exactly for None or text that is all whitespace. Otherwise it is the non-empty stripped text. |
| ExtractHelper.Ncls | src/oas/utils/extract_helper.py:93-103 | `_ncls` is None exactly for None or an empty list. Otherwise it is the list itself. |
| ExtractHelper.NcsIdempotent | src/oas/utils/extract_helper.py:80-91 | Applying `_ncs` twice equals applying it once. |
| ExtractHelper.FirstText | src/oas/utils/extract_helper.py:4-22 | `_nct(root.find(path))` is present exactly when the first match exists and has text. It is then that text, stripped. |
| ExtractHelper.SingleNodeExtractors | src/oas/utils/extract_helper.py:4-22 | `extract_id`, `extract_journal`, `extract_volume` and `extract_issue` are present exactly when the first node of their path exists and has text. The value is then that text, stripped, and later matches play no part. |
| ExtractHelper.JoinNoOuterSpace | src/oas/utils/extract_helper.py:26 | The `;`-join of stripped texts has no outer whitespace. It is empty only for no texts, or a single empty text. |
| ExtractHelper.NcsOfJoin | src/oas/utils/extract_helper.py:26 | `_ncs` of a `;`-join of stripped texts returns the join, or None when the join is empty. |
| ExtractHelper.PresentTextsStripped | src/oas/utils/extract_helper.py:26 | Every text kept after dropping the Nones is stripped. |
| ExtractHelper.SomesStripped | src/oas/utils/extract_helper.py:26 | Dropping the Nones from stripped optional texts leaves stripped texts. |
| ExtractHelper.JoinedTexts | src/oas/utils/extract_helper.py:24-27 | `extract_category` (the same rule as `extract_issn` at lines 39-42): the `;`-join of the stripped texts of the nodes that have text. It is None exactly when there are none, or only one and it is empty. |
| ExtractHelper.JoinedTextsSplit | src/oas/utils/extract_helper.py:39-42 | A joined value splits back on `;` into the node texts, when no text contains `;`. |
| ExtractHelper.StrictJoinedTexts | src/oas/utils/extract_helper.py:29-32 | `extract_doi` raises exactly when some DOI node has no text. Otherwise it equals the lenient join. |
| ExtractHelper.NodeTextsPresent | src/oas/utils/extract_helper.py:31 | Every `_nct` result is present exactly when no node lacks text. |
| ExtractHelper.ExtractYear | src/oas/utils/extract_helper.py:34-37 | `extract_year` succeeds exactly when at least one year is listed and every listed year is an integer. The result is at most every listed year and equal to one of them. A failure is a `ValueError`. |
| ExtractHelper.LeastYear | src/oas/utils/extract_helper.py:36 | The minimum of the parsed years is one of the listed years and at most each of them. |
| ExtractHelper.AuthorName | src/oas/utils/extract_helper.py:105-114 | `_extract_author_name` is the stripped `"given sur"` (a missing part counts as `''`) when that is longer than three characters, and `'???'` otherwise. The name has at least three characters and no outer whitespace. |
| ExtractHelper.PlaceholderHasNoOuterSpace | src/oas/utils/extract_helper.py:114 | The placeholder `'???'` has no outer whitespace. |
| ExtractHelper.ShortAuthorName | src/oas/utils/extract_helper.py:111-114 | An example: no given name and surname `Li` give the placeholder `'???'`. |
| ExtractHelper.FullAuthorName | src/oas/utils/extract_helper.py:113-114 | An example: given name `Wei` and surname `Li` give `Wei Li`. |
| ExtractHelper.ExtractAuthors | src/oas/utils/extract_helper.py:44-47 | `extract_authors` is None exactly when no author is listed. Otherwise it is the `;`-join of every author's name. |
| ExtractHelper.ExtractAuthorsSplit | src/oas/utils/extract_helper.py:44-47 | Author names free of `;` are recovered, in order, by splitting the value on `;`. |
| ExtractHelper.ExtractTitle | src/oas/utils/extract_helper.py:49-52 | `extract_title` is None exactly when the title text is all whitespace. Otherwise it is a non-empty collapsed string with the title's words, in order. |
| ExtractHelper.ExtractParagraphs | src/oas/utils/extract_helper.py:116-131 | The paragraphs of the first candidate path with at least one match; every earlier path matched nothing. The result is `[]` exactly when no path matches. |
| ExtractHelper.ParagraphsIgnoreLater | src/oas/utils/extract_helper.py:127-130 | Once a path matches, paths after it are never consulted. |
| ExtractHelper.FirstParagraphs | src/oas/utils/extract_helper.py:54-62 | `extract_abstract` and `extract_body` are None exactly when neither path matches. Otherwise they are the paragraphs of the first path that matches. |
| ExtractHelper.Run | src/oas/utils/extract_helper.py:4-67 | Only the DOI and year extractors can raise. `extract_references` is always the number of reference nodes, never None. Only year and references give integers, only abstract and body give lists, and those lists are never empty. |
| PipelineHelper.ParseXml | src/oas/utils/pipeline_helper.py:31-40 | The string parse is used when it succeeds. The byte re-parse is tried only when that parse raises a `ValueError`. |
| PipelineHelper.ParseXmlSafe | src/oas/utils/pipeline_helper.py:25-29 | Any parse exception becomes None. Otherwise the result is the parsed tree. |
| PipelineHelper.ExtractorSafe | src/oas/utils/pipeline_helper.py:42-46 | The extractor's own value, or None when it raises or returns None. |
| PipelineHelper.Extracted | src/oas/utils/pipeline_helper.py:17-21 | The article's keys are exactly the configured names whose extractor returned a value without raising. Each stored value is exactly that return value. |
| PipelineHelper.RaisingExtractorDropsOnlyItsField | src/oas/utils/pipeline_helper.py:18-21 | Replacing one extractor by a raising one removes exactly that field. Every other field, and its value, is unchanged. |
| PipelineHelper.ReplacedKeys | src/oas/utils/pipeline_helper.py:17-21 | With one extractor raising, the keys are the other keys unchanged. |
| PipelineHelper.ReplacedValue | src/oas/utils/pipeline_helper.py:19-21 | With one extractor raising, every remaining value is the value it had before. |
| PipelineHelper.ArticleOf | src/oas/utils/pipeline_helper.py:14-23 | `_extract_article` returns an article exactly when the document parses and some field has a value. The article is the extracted fields, never empty. |
| PipelineHelper.ExtractArticle | src/oas/utils/pipeline_helper.py:14-23 | The field-by-field loop fills exactly the article `ArticleOf` describes. |
| PipelineHelper.ArticlesFromDocuments | src/oas/utils/pipeline_helper.py:5-12 | Each document yields at most one article. Articles come from strictly increasing document positions, and every article is non-empty. |
| PipelineHelper.UnparsableDocumentSkipped | src/oas/utils/pipeline_helper.py:9-16 | A document that does not parse yields nothing, and the stream continues with the documents after it. |
| PipelineHelper.ExtractArticles | src/oas/utils/pipeline_helper.py:5-12 | The generator loop yields exactly the article of each document that has one, in input order. |
| FsHelper.TarBallByName | src/oas/utils/fs_helper.py:17-22 | `_is_tar_ball` holds exactly for a regular file whose name has at least one character before a final `.tar` (any case) and does not start with `_`. |
| FsHelper.TarNameHasTarSuffix | src/oas/utils/fs_helper.py:20-21 | A name ending in `.tar` (any case) after at least one character has that suffix, and the rest is its stem. |
| FsHelper.TarSuffixIsTarName | src/oas/utils/fs_helper.py:20-21 | A `.tar` suffix means the name ends in `.tar` after at least one character. |
| FsHelper.TarBallIgnoresCase | src/oas/utils/fs_helper.py:17-22 | Two entries of the same kind whose names are equal up to letter case are both tar balls or both not. |
| FsHelper.UnderscoreIgnoresCase | src/oas/utils/fs_helper.py:21 | Whether a name starts with `_` does not depend on letter case. |
| FsHelper.ListFolderTarBalls | src/oas/utils/fs_helper.py:23-26 | Only tar balls of the folder are listed, and every tar ball of the folder is listed. |
| FsHelper.PmcFileByName | src/oas/utils/fs_helper.py:37-41 | `_is_pmc_file` holds exactly for a file member whose name has at least seven characters, starts with `PMC` and ends with `.XML`, both in any case. |
| FsHelper.PmcFileIgnoresCase | src/oas/utils/fs_helper.py:37-41 | Two members of the same kind whose names are equal up to letter case are both selected or both not. |
| FsHelper.Documents | src/oas/utils/fs_helper.py:42-51 | `list_documents` yields at most one document per member. |
| FsHelper.DocumentsWithoutErrors | src/oas/utils/fs_helper.py:42-51 | Without decoding errors, it yields one document per selected member that `extractfile` returns, in archive order. |
| FsHelper.DocumentsAppend | src/oas/utils/fs_helper.py:42-51 | Reading an archive in two parts gives the two parts' documents, in order, when the first part has no decoding error. |
| FsHelper.DecodeErrorStops | src/oas/utils/fs_helper.py:48-50 | A member that fails to decode ends the generator with that error. Later members are never read. |
| FsHelper.ListDocuments | src/oas/utils/fs_helper.py:42-51 | The `while` loop over `tar_ball.next()` yields exactly what `Documents` describes. |
| FsHelper.Projection | src/oas/utils/fs_helper.py:70-73 | Every data row has exactly `len(fields)` cells. |
| FsHelper.ProjectRow | src/oas/utils/fs_helper.py:70-73 | Cell `i` is `article[fields[i]]` when that key is present, and empty otherwise. |
| FsHelper.ProjectionUsesOnlyFields | src/oas/utils/fs_helper.py:71-73 | A non-empty cell comes from the listed field at its position, so keys outside `fields` never appear. |
| FsHelper.StreamCsv | src/oas/utils/fs_helper.py:66-75 | The header `fields` comes first, then one projected row per article. Every article is yielded unchanged, in order. |
| ConvertMode.SelectedIn | src/oas/mode/convert.py:37-39 | Inside one sub-folder, exactly the files the test selects are kept, and each is paired with its folder. |
| ConvertMode.Selected | src/oas/mode/convert.py:35-39 | `_collect_articles` walks exactly the selected files of the top-level directories, and only those. |
| ConvertMode.TopLevelFilesIgnored | src/oas/mode/convert.py:36 | Files lying directly in the source folder are never collected. |
| ConvertMode.CollectArticlesMeaning | src/oas/mode/convert.py:31-39 | Every collected path is `str(folder / sub / file)` for a selected pair: a sub-folder of the source and a file in it that passes the test. Conversely, every file of a sub-folder that passes the test is collected. |
| ConvertMode.ArticleFileByName | src/oas/mode/convert.py:38 | For a dot-free extension such as `.XML`, the test holds exactly for a regular file whose name ends with the extension in any case and has at least three characters before it, the first three being `PMC` in any case. |
| ConvertMode.ArticleFileIgnoresCase | src/oas/mode/convert.py:38 | Two entries of the same kind whose names are equal up to letter case are both collected or both not. |
| ConvertMode.RawArticle | src/oas/mode/convert.py:70-83 | The dictionary raises exactly when the year is missing or invalid, or an ISSN node has no text. The year's own error takes precedence. All thirteen keys are filled. `year` is the least year, `referenceCounts` is the reference count, `doi` and `category` come from the first node only, `issn` is the `;`-join, and `body` is a list. |
| ConvertMode.ParseArticle | src/oas/mode/convert.py:48-87 | `_parse_article` succeeds exactly when the file reads, parses and its dictionary does not raise. The result is that dictionary with its None values dropped. It always holds `year` and `referenceCounts` (the reference count), and its body has a length. |
| ConvertMode.ParseArticleSafe | src/oas/mode/convert.py:41-46 | `_parse_article_safe` is `{}` exactly when `_parse_article` raises. Otherwise it is `_parse_article`'s result. |
| ConvertMode.MissingYearLosesArticle | src/oas/mode/convert.py:75 | A missing year loses the whole article, not just the `year` field. The lenient pipeline's year extractor would merely raise. |
| ConvertMode.TextlessIssnLosesArticle | src/oas/mode/convert.py:78 | An ISSN node without text makes the join raise, and the whole article becomes `{}`. |
| ConvertMode.ParsedArticles | src/oas/mode/convert.py:26 | One article per collected file, `{}` exactly for a failing file. Every body has a length. |
| ConvertMode.Format | src/oas/mode/convert.py:177 | `pattern.format(id = i)` raises `KeyError` naming the field exactly for a pattern whose field is not `id`. A pattern without a field gives the same name for every index. |
| ConvertMode.FileNamesDistinct | src/oas/mode/convert.py:177 | With one `{id}` field, different indices give different file names, so no file is opened twice. |
| ConvertMode.Disk | src/oas/mode/convert.py:177-178 | Opening files with `'w'` leaves on disk exactly the names opened. |
| ConvertMode.DiskDistinct | src/oas/mode/convert.py:177-178 | When the names opened are distinct, every file is on disk as it was written. |
| ConvertMode.DiskOneName | src/oas/mode/convert.py:177-178 | When every file is opened under one name, each opening truncates it, and only the last file written remains. |
| ConvertMode.DiskOfPattern | src/oas/mode/convert.py:177-178 | With one `{id}` field every file stays on disk; with no field only the last file remains. |
| ConvertMode.DefaultFileNames | src/oas/__main__.py:32 | An example: the default pattern `oas.{id:02}.jsonl` names files `oas.00.jsonl`, …, `oas.07.jsonl`, …. |
| ConvertMode.AppendToLast | src/oas/mode/convert.py:182 | Writing an article appends it to the open file and changes no other file. |
| ConvertMode.PutKeepsRotation | src/oas/mode/convert.py:176-190 | One turn of the loop (open lazily, write if there is a body, rotate at `count`) keeps the invariant. |
| ConvertMode.ArticleFiles.constructor | src/oas/mode/convert.py:171-174 | The writer starts with no file open, `fp_i = 0`, `fp_articles = 0` and nothing written. |
| ConvertMode.ArticleFiles.Put | src/oas/mode/convert.py:176-190 | A file is opened under the next index only when none is open. Only an article with a body is written and yielded. The file rotates when `fp_articles >= count`. |
| ConvertMode.ArticleFiles.Finish | src/oas/mode/convert.py:191-193 | The final close changes no file content and no index. |
| ConvertMode.Feed | src/oas/mode/convert.py:175-190 | After the loop, exactly the articles with a body were written. A file exists exactly when some article arrived. |
| ConvertMode.SaveArticles | src/oas/mode/convert.py:167-193 | A pattern that does not format raises `KeyError` at the first article, before any file is opened. Otherwise only articles with a body are written and yielded, in input order, and the files' contents concatenated are exactly the yielded articles. Empty input opens no file. Indices start at 0 and increase by one per rotation. With `count >= 1`, rotated files hold exactly `count` articles and the last one fewer. With `count <= 0`, each file holds at most one article. |
| ConvertMode.UpdateFreq | src/oas/mode/convert.py:28 | `int(count/100)` is 0 exactly for `-100 < count < 100`, and between 1 and `count` for `count >= 100`. |
| ConvertMode.ProgressBar | src/oas/mode/convert.py:195-204 | `_progress_bar` raises `ZeroDivisionError` exactly when the frequency is 0 and some article arrives. Otherwise it counts every article. |
| ConvertMode.UntilFirstBody | src/oas/mode/convert.py:175-184 | The articles read before the first one is yielded: a prefix of the input that ends at the first article with a body, or all of them when none has one. |
| ConvertMode.SaveAndCount | src/oas/mode/convert.py:25-29 | The lazy chain of `_save_articles` and `_progress_bar`: the error cases of `ConvertFolder` below, for any sequence of parsed articles. |
| ConvertMode.ConvertFolder | src/oas/mode/convert.py:9-29 | A pattern whose field is not `id` raises `KeyError` at the first article and writes nothing. Otherwise, for `-100 < count < 100`, the first article with a body is written and then `ZeroDivisionError` is raised. Otherwise the files hold, in collection order, exactly the parsed articles that have a body, file `i` named `pattern.format(id=i)`. With one `{id}` field all files stay on disk; with no field only the last one does. |
| ConvertMode.EmptyFileForBodylessArticle | src/oas/mode/convert.py:176-181 | An example: since the file is opened before the body test, an article without a body arriving first opens file 0, leaves it empty, and is not yielded. |
| OasToJsonl.CleanDict | code/oas_to_jsonl.py:194-202 | `_clean_dict` keeps exactly the entries whose value is not None, with values unchanged. |
| OasToJsonl.NxmlFileByName | code/oas_to_jsonl.py:46 | The script keeps exactly the regular files whose name ends with `.NXML` in any case, after at least three characters that start with `PMC` in any case. |
| OasToJsonl.ParseArticle | code/oas_to_jsonl.py:57-95 | The script's `_parse_article` (dictionary filled in order, then cleaned) computes what the `convert` mode's does. So a missing year or an ISSN node without text loses the whole article here too. |
| OasToJsonl.ParseArticleSafe | code/oas_to_jsonl.py:49-54 | Any exception gives `{}`, and `{}` is returned only for an exception. |
| OasToJsonl.SaveArticlesToJsonl | code/oas_to_jsonl.py:110-118 | The one output file receives exactly the items with a non-empty body, in order. `{}` is never written. |
| ExtractMetadata.ParseJats | code/extract_metadata.py:46-75 | `parse_jats` succeeds exactly when the file reads, `fromstring` parses it (there is no bytes retry), every ISSN node has text and the year parses. The read error comes first, then the parse error. The ISSN join is evaluated before the year, so an ISSN node without text raises even when the year fails too. |
| ExtractMetadata.RecordMeaning | code/extract_metadata.py:64-75 | The record's year is at most every listed year, and `referenceCount` is the number of references. The title is collapsed and keeps the title's words. The authors are `''` exactly when no author is listed. doi and category come from the first node. |
| ExtractMetadata.MissingYearOrIssnFails | code/extract_metadata.py:69-70 | A missing year, or an ISSN node without text, sends the file to the error list. |
| ExtractMetadata.RecordRow | code/extract_metadata.py:33 | The data row has eleven cells, each under the header naming its field. |
| ExtractMetadata.RoutingPartition | code/extract_metadata.py:27-35 | Every `.nxml` file gives exactly one data row or one error entry, and nothing else gives either. |
| ExtractMetadata.RoutingStep | code/extract_metadata.py:28-35 | One more directory entry adds at most its own row or error entry, and counts once when it is an `.nxml` file. |
| ExtractMetadata.ExtractMetadata | code/extract_metadata.py:11-36 | The header (the eleven names at line 26) comes first. Then come the data rows in listing order, and the error entries `(stem, exception)` in encounter order. The counter `i` ends at one plus the number of `.nxml` files. |
| ExtractMetadata.WriteErrors | code/extract_metadata.py:102-107 | The header `['PMCID', 'exception']` comes first, then one row per error, in order. |
| ConvertToCorpus.ConvertToSentencesAppend | code/convert_to_corpus.py:84-86 | `convert_to_sentences` keeps paragraph order: tokenizing two runs of paragraphs gives the two runs' sentence lists, one after the other. |
| ConvertToCorpus.ParseJatsArticle | code/convert_to_corpus.py:49-64 | It succeeds exactly when the file reads and parses. It is None (not full text) exactly when the abstract or the body has no paragraph. Otherwise it carries the id and the sentences of both parts. |
| ConvertToCorpus.WriteArticlePart | code/convert_to_corpus.py:92-102 | The loop with its `first` flag writes exactly the part text. |
| ConvertToCorpus.PartTextIsJoin | code/convert_to_corpus.py:95-102 | The file is the paragraph blocks joined by one `'\n'`: one extra newline between consecutive paragraphs, none before the first. |
| ConvertToCorpus.EmptyPart | code/convert_to_corpus.py:93-102 | An example: an empty paragraph list gives an empty file. |
| ConvertToCorpus.SentenceLinesNewlines | code/convert_to_corpus.py:100-102 | A paragraph's block holds one newline per sentence. |
| ConvertToCorpus.PartNewlines | code/convert_to_corpus.py:93-102 | For n ≥ 1 paragraphs, the file holds the total number of sentences plus n − 1 newlines. |
| ConvertToCorpus.WriteArticle | code/convert_to_corpus.py:88-90 | It writes `abstract/PMC{id}.txt` and `body/PMC{id}.txt` with the two part texts, and leaves every other file unchanged. |
| ConvertToCorpus.FilesAfterSnoc | code/convert_to_corpus.py:34 | Writing one more article adds its two files to what was there before. |
| ConvertToCorpus.WrittenFilesOnly | code/convert_to_corpus.py:34 | The article files are exactly `abstract/PMC{id}.txt` and `body/PMC{id}.txt` for the ids of the written articles. |
| ConvertToCorpus.OutcomePartition | code/convert_to_corpus.py:25-36 | Each `.nxml` file ends in exactly one outcome: written, or one error row (not full text, or an exception). |
| ConvertToCorpus.RoutingStep | code/convert_to_corpus.py:26-36 | One more directory entry adds at most its own article or its own error row. |
| ConvertToCorpus.ConvertFolderToCorpus | code/convert_to_corpus.py:16-37 | The articles are written in listing order, and the article files are those of the written articles. The error rows come in encounter order and go to `{folder_out.stem}.errors.csv` in the output folder (`<name>.errors.csv` for a folder name without a dot): the header row, then one row per error. |
| ConvertToCorpus.WriteErrors | code/convert_to_corpus.py:104-111 | The header `['PMCID', 'exception']` comes first. Then comes one row per error, in order, holding `not full text` or the exception. |
| TokenizeOasJsonl.LineGroupMeaning | code/tokenize_oas_jsonl.py:72-80 | A paragraph that strips to empty yields exactly one `''` line. Any other paragraph yields one line per sentence of the stripped paragraph, its tokens joined by single spaces. |
| TokenizeOasJsonl.TokenizedLinesAppend | code/tokenize_oas_jsonl.py:72-80 | Output lines follow paragraph order. |
| TokenizeOasJsonl.BlankParagraphsGiveBlankLines | code/tokenize_oas_jsonl.py:73-75 | Blank paragraphs give exactly one empty line each. |
| TokenizeOasJsonl.EmptyLinesOnlyFromBlankParagraphs | code/tokenize_oas_jsonl.py:72-80 | When no sentence line of a non-blank paragraph is empty, the empty lines of the output are exactly one per blank paragraph. |
| TokenizeOasJsonl.NoBlankLineBetweenParagraphs | code/tokenize_oas_jsonl.py:17 | Two non-blank paragraphs give their lines back to back, with no empty line between them. |
| TokenizeOasJsonl.ParagraphsSeparated | code/tokenize_oas_jsonl.py:17 | In `ParagraphLines`, n ≥ 1 non-blank paragraphs are separated by exactly n − 1 empty lines. |
| TokenizeOasJsonl.BlankLineBetweenParagraphs | code/tokenize_oas_jsonl.py:17 | In `ParagraphLines`, two non-blank paragraphs give the first one's lines, one empty line, then the second one's lines. |
| TokenizeOasJsonl.TokenizedLinesStep | code/tokenize_oas_jsonl.py:72-80 | One more paragraph appends exactly its own lines. |
| TokenizeOasJsonl.SentenceLines | code/tokenize_oas_jsonl.py:78-80 | The inner loop gives one space-joined token line per sentence, in sentence order. |
| TokenizeOasJsonl.TokenizeLines | code/tokenize_oas_jsonl.py:66-80 | `_tokenize_lines` collected into a list equals the paragraph-by-paragraph, sentence-by-sentence lines. |
| TokenizeOasJsonl.LinesOf | code/tokenize_oas_jsonl.py:65-66 | A list field is its own lines. The type-checked function refuses a string, and an integer is never iterable. Unchecked, a string is iterated character by character. |
| TokenizeOasJsonl.TokenizedField | code/tokenize_oas_jsonl.py:53-61 | An absent field stays absent. A present field fails exactly when its value is not iterable as lines, and otherwise gives its tokenized lines. |
| TokenizeOasJsonl.TokenizedArticle | code/tokenize_oas_jsonl.py:49-63 | An input without `'id'` raises `KeyError`. A present abstract or body whose value is not iterable as lines raises, the abstract first. Otherwise the output `'id'` is the input `'id'`, `'abstract_tokenized'` and `'body_tokenized'` are present exactly when `'abstract'` and `'body'` are, each holding the tokenized lines of that field, and no other key appears. |
| TokenizeOasJsonl.TokenizeArticle | code/tokenize_oas_jsonl.py:49-63 | Filling the fresh dictionary key by key gives exactly `TokenizedArticle` (type-checked). |
| TokenizeOasJsonl.PassThrough | code/tokenize_oas_jsonl.py:42-46 | Every item read is passed on and written, unfiltered and in reader order (the same loop appears at lines 87-90). |
| XxxTokenize.TokenizeValue | src/oas/xxx/tokenize.py:53-66 | Without the type check, only an integer field raises. Any other value is tokenized, one paragraph per list element or per character. |
| XxxTokenize.StringFieldIsCharacters | src/oas/xxx/tokenize.py:58 | A string field is iterated as one paragraph per character, where the type-checked copy refuses it. |
| XxxTokenize.TokenizeArticle | src/oas/xxx/tokenize.py:37-51 | `_tokenize_article` gives the id, and the tokenized abstract and body exactly when present. |
| XxxTokenize.CopiesAgreeOnLists | src/oas/xxx/tokenize.py:37-66 | The two tokenizing copies agree on every article whose abstract and body are lists. |
| XxxTokenize.Run | src/oas/xxx/tokenize.py:12-26 | `main` does nothing: the output folder is left as it was. |
| DtypesConvert.CheckFolder | src/oas/dtypes/Convert.py:42-46 | `_folder` passes exactly for an existing directory, and a failure is a `ValueError`. A missing path gives `"<path> is does not exist"`, and an existing non-directory gives `"<path> is not a folder"`. |
| DtypesConvert.CheckPositive | src/oas/dtypes/Convert.py:47-49 | `_nonzero_int` passes exactly for `val > 0`. Otherwise it raises the `ValueError` `"<val> must be > 0"`. |
| DtypesConvert.Convert.constructor | src/oas/dtypes/Convert.py:5-36 | The four properties return the constructor arguments unchanged. |
| DtypesConvert.Convert.Validate | src/oas/dtypes/Convert.py:38-52 | `validate` passes exactly when source and dest are directories and `count > 0`. The checks run in the order source, dest, count, and the first failure is the one raised. No field changes. |
| DtypesConvert.MissingSourceReportedFirst | src/oas/dtypes/Convert.py:50-52 | An example: with a missing source and a non-positive count, the source error is raised, not the count error. |
| DtypesMetadata.Metadata.constructor | src/oas/dtypes/Metadata.py:5-24 | The two properties return the constructor arguments unchanged. |
| DtypesMetadata.Metadata.Validate | src/oas/dtypes/Metadata.py:26-36 | `validate` passes exactly when the source and the parent of `dest` are directories. The source is checked first, and a failure is a `ValueError`. |
| DtypesMetadata.DestItselfNotChecked | src/oas/dtypes/Metadata.py:36 | Whether `dest` itself exists, and what it is, does not affect either check. Only its parent is checked. |

## Left out

- **Parsing.** lxml parsing and XPath evaluation are a foreign library. The parser is a
  pair of uninterpreted functions, and each queried path is a given sequence of nodes.
  The `bytes(xml, 'utf-8')` encoding is folded into the byte-parsing function.
- **Tokenizers.** The NLTK tokenizers (Punkt with its abbreviation set, `word_tokenize`)
  are foreign. They are function-typed parameters.
- **Real I/O.** Not modelled:
  - opening, writing and deleting files;
  - `rmtree` and `mkdir`, including `create_folder_structure` and `ensure_path`;
  - decoding tar archives, CSV quoting and jsonlines serialisation.

  Writes are values in sequences and maps. A file's content is given as what reading it
  gives.
- **Write order.** JSON key order (`sort_keys=True`) is not modelled, and neither is
  dictionary insertion order where the output does not depend on it. Articles are maps.
- **`write_log`.** It depends on `uuid` randomness.
- **Concurrency.** Multiprocessing pools (`mp_boilerplate`) only add concurrency. The
  model is the sequential order.
- **Progress bars and `print`.** These are user interface only. Of `_progress_bar` the
  model keeps the count and the `ZeroDivisionError` of `bar_i % update_freq`.
- ConvertMode.ConvertFolder: after the `ZeroDivisionError`, the model counts the article
  already handed to the writer as written to its file. That holds once CPython finalises
  the abandoned generator and its open file.
- ConvertMode.Pattern: covers a pattern with one `{id}` or `{id:0W}` field, with no field,
  or with one field of another name. Several fields, other format specifications (`{id:x}`,
  a fill character, alignment), positional fields such as `{}` or `{0}` and escaped braces
  are not modelled.
- ConvertMode.FileNamesDistinct: holds only for the one-field `{id}` pattern. With no
  field every rotation truncates the same file (`DiskOneName` states what remains), and
  another field name raises `KeyError` (`Format`).
- **Out-of-scope code.** Not modelled:
  - the download code (FTP and `wget`);
  - argument parsing and `ensure_folder` in `src/oas/__main__.py`, except the default
    file pattern;
  - the `src/oas/modes/*.py` stubs.
- **Generators.** Generators are modelled by the sequences they produce. The laziness of
  the pipeline is not captured: when a read fails, the output written before it is not
  modelled.
- **Encoding and case.** Unicode case mappings beyond ASCII are not modelled, and
  neither are non-ASCII digits accepted by `int()`.
- ConvertMode.SaveArticles: requires every body to have a length (a string or a list).
  Python would raise `TypeError` on `len` of an integer body, and the model does not
  include that path. `ParsedArticles` proves that `convert`'s own articles always meet
  the requirement.
- OasToJsonl.SaveArticlesToJsonl: requires every body to have a length, for the same
  reason.
- ConvertMode.ArticleFiles.Put: requires a body with a length, for the same reason.
- ConvertMode.Feed: requires a body with a length, for the same reason.
- ConvertToCorpus.PartNewlines: counts newlines only for sentences that contain none
  themselves. A sentence with a newline adds its own newlines.
- ConvertToCorpus.SentenceLinesNewlines: the same restriction applies.
- ExtractMetadata.WriteErrors: the error cell holds the exception value, not its
  `str(ex)` text.
- ConvertToCorpus.WriteErrors: the error cell holds the exception value, not its
  `str(ex)` text.
- ExtractMetadata.ExtractMetadata: the same; error entries carry the exception itself.
  Where the errors file goes (`errors.metadata.csv` beside the output file, in
  `file_out.parent`) is a path and is not modelled; the error rows are returned.
- PyInt.ParseInt: accepts the ASCII forms only: optional surrounding whitespace, a sign,
  and digits with single underscores between them.
- PyStr.Upper: maps ASCII letters only.
- PyStr.Lower: maps ASCII letters only.
- FsHelper.Documents: models only the decoding error of a member. Errors from the tar
  reader itself are not modelled.

## Findings

| source | as written | input that shows it | evidently intended | confidence | as-written member | corrected member |
|---|---|---|---|---|---|---|
| code/tokenize_oas_jsonl.py:17 | The docstring promises one sentence per line with a blank line between paragraphs, but `_tokenize_lines` (lines 72-80, the same loop in src/oas/xxx/tokenize.py:58-66) yields `''` only for a paragraph that strips to empty. | Any two non-blank paragraphs whose sentences tokenize to non-empty lines, such as `["A b.", "C d."]`: their lines come out adjacent, with no empty line between them. | One empty line between consecutive non-blank paragraphs. | not executed | TokenizeOasJsonl.NoBlankLineBetweenParagraphs | TokenizeOasJsonl.BlankLineBetweenParagraphs |
