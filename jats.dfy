/** The parsed JATS document, kept abstract: for every structural path the core queries,
    the sequence of matched nodes in document order. The XML parser itself is a pair of
    uninterpreted functions. */
module Jats {
  import opened PyCore

  /** An element: its own `.text` (None when it starts with a child element or is empty)
      and the in-order texts of all its descendant text nodes (`.//text()`). */
  datatype Node = Node(text: Option<string>, texts: seq<string>)

  /** A contributor `name` element: the results of `./given-names/text()` and
      `./surname/text()`. */
  datatype AuthorNode = AuthorNode(givenNames: seq<string>, surnames: seq<string>)

  /** A parsed article, one field per queried path. */
  datatype Doc = Doc(
    pmcIds: seq<Node>,                  // ./front/article-meta/article-id[@pub-id-type='pmc']
    journalTitles: seq<Node>,           // ./front/journal-meta//journal-title
    volumes: seq<Node>,                 // ./front/article-meta/volume
    issues: seq<Node>,                  // ./front/article-meta/issue
    subjects: seq<Node>,                // ./front/article-meta/article-categories//subject
    dois: seq<Node>,                    // ./front/article-meta/article-id[@pub-id-type='doi']
    yearTexts: seq<string>,             // ./front/article-meta/pub-date/year/text()
    issns: seq<Node>,                   // ./front/journal-meta/issn
    authors: seq<AuthorNode>,           // ./front/article-meta/contrib-group/contrib/name
    titleTexts: seq<string>,            // ./front/article-meta/title-group/article-title//text()
    abstractParagraphs: seq<Node>,      // ./front/article-meta/abstract//p
    transAbstractParagraphs: seq<Node>, // ./front/article-meta/trans-abstract//p
    sectionParagraphs: seq<Node>,       // ./body//sec/p
    bodyParagraphs: seq<Node>,          // ./body/p
    references: seq<Node>               // ./back/ref-list/ref
  )

  /** `etree.fromstring` applied to a `str` and to the UTF-8 `bytes` of the same text. */
  datatype XmlParser = XmlParser(fromString: string -> Outcome<Doc>, fromBytes: string -> Outcome<Doc>)
}

/** The shapes of `src/oas/dtypes/types.py`: an article maps field names to integers,
    strings or lists of strings; an extractor maps a parsed document to such a value or
    to None, or raises. */
module Types {
  import opened PyCore
  import opened Jats

  datatype Value = IntV(i: int) | StrV(s: string) | ListV(l: seq<string>)

  type Article = map<string, Value>

  type Extractor = Doc -> Outcome<Option<Value>>

  /** A cell as `csv.writer` receives it: None becomes an empty cell. */
  datatype Cell = Null | Text(s: string) | Number(n: int) | Texts(l: seq<string>) | Failure(e: Exception)

  type Row = seq<Cell>

  function CellOf(v: Value): Cell {
    match v
    case IntV(i) => Number(i)
    case StrV(s) => Text(s)
    case ListV(l) => Texts(l)
  }

  function OptText(s: Option<string>): Cell {
    if s.Some? then Text(s.value) else Null
  }

  /** A header row: the given names, in order. */
  function HeaderRow(names: seq<string>): (r: Row)
    ensures |r| == |names| && forall i :: 0 <= i < |names| ==> r[i] == Text(names[i])
  {
    seq(|names|, i requires 0 <= i < |names| => Text(names[i]))
  }

  /** `{key: value for key, value in raw.items() if value is not None}` */
  function DropNoneValues(raw: map<string, Option<Value>>): (r: Article)
    ensures forall k :: k in r <==> k in raw && raw[k].Some?
    ensures forall k :: k in r ==> r[k] == raw[k].value
  {
    map k | k in raw && raw[k].Some? :: raw[k].value
  }

  /** An article seen as a dictionary that may hold None values. */
  function AsRaw(a: Article): (raw: map<string, Option<Value>>)
    ensures raw.Keys == a.Keys && forall k :: k in a ==> raw[k] == Some(a[k])
  {
    map k | k in a :: Some(a[k])
  }

  /** A header row names its columns: equal headers come from equal field lists. */
  lemma HeaderRowInjective(a: seq<string>, b: seq<string>)
    requires HeaderRow(a) == HeaderRow(b)
    ensures a == b
  {
    assert |a| == |b|;
    forall i | 0 <= i < |a|
      ensures a[i] == b[i]
    {
      assert Text(a[i]) == HeaderRow(a)[i] == HeaderRow(b)[i] == Text(b[i]);
    }
  }

  /** Dropping the None values undoes lifting an article to a dictionary with optional
      values: a clean dictionary is its own cleaning. */
  lemma AsRawRoundTrip(a: Article)
    ensures DropNoneValues(AsRaw(a)) == a
  {
    assert DropNoneValues(AsRaw(a)).Keys == a.Keys;
  }

  /** Dropping the None values loses nothing exactly when there are none. */
  lemma DropNoneValuesLossless(raw: map<string, Option<Value>>)
    ensures AsRaw(DropNoneValues(raw)) == raw <==> forall k :: k in raw ==> raw[k].Some?
  {
    if forall k :: k in raw ==> raw[k].Some? {
      assert AsRaw(DropNoneValues(raw)).Keys == raw.Keys;
    }
  }

  /** Removing the None values twice removes nothing more. */
  lemma DropNoneValuesIdempotent(raw: map<string, Option<Value>>)
    ensures DropNoneValues(AsRaw(DropNoneValues(raw))) == DropNoneValues(raw)
  {
  }

  /** `len(article['body'])` is defined: the body, when present, is a string or a list. */
  predicate BodyHasLength(a: Article) {
    "body" in a ==> !a["body"].IntV?
  }

  /** `'body' in article and len(article['body']) > 0` */
  predicate HasBody(a: Article) {
    "body" in a && match a["body"] {
      case IntV(_) => false
      case StrV(s) => |s| > 0
      case ListV(l) => |l| > 0
    }
  }
}
