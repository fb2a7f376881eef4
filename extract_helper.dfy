/** The field extractors of `src/oas/utils/extract_helper.py`: null-conditional
    normalisation, `;`-joined lists, whitespace collapsing, the earliest year, the author
    placeholder and the first-matching-path rule for paragraphs. */
module ExtractHelper {
  import opened PyCore
  import opened PyStr
  import opened PyInt
  import opened Jats
  import opened Types

  /** `_nct(node)`: None for an absent node or a node without text, else its stripped
      text (which may be empty). */
  function Nct(node: Option<Node>): (r: Option<string>)
    ensures r.Some? <==> node.Some? && node.value.text.Some?
    ensures r.Some? ==> NoOuterSpace(r.value) && r.value == Strip(node.value.text.value)
  {
    if node.None? then None
    else if node.value.text.None? then None
    else StripMeaning(node.value.text.value); Some(Strip(node.value.text.value))
  }

  /** `_ncs(txt)`: None for None or for text that strips to nothing, else the stripped text. */
  function Ncs(txt: Option<string>): (r: Option<string>)
    ensures r.None? <==> txt.None? || AllSpace(txt.value)
    ensures r.Some? ==> r.value != [] && NoOuterSpace(r.value) && r.value == Strip(txt.value)
  {
    if txt.None? then None
    else
      StripMeaning(txt.value);
      var t := Strip(txt.value);
      if |t| == 0 then None else Some(t)
  }

  /** `_ncls(list_)`: None for None or `[]`, else the list itself. */
  function Ncls(l: Option<seq<string>>): (r: Option<seq<string>>)
    ensures r.None? <==> l.None? || l.value == []
    ensures r.Some? ==> r == l
  {
    if l.None? then None else if |l.value| == 0 then None else l
  }

  /** `_ncs` is idempotent, and it leaves text without outer whitespace unchanged. */
  lemma NcsIdempotent(txt: Option<string>)
    ensures Ncs(Ncs(txt)) == Ncs(txt)
  {
    if Ncs(txt).Some? {
      StripKeeps(Ncs(txt).value);
    }
  }

  /** `_nct(root.find(path))`: the stripped text of the first matching node. */
  function FirstText(nodes: seq<Node>): (r: Option<string>)
    ensures r.Some? <==> nodes != [] && nodes[0].text.Some?
    ensures r.Some? ==> r.value == Strip(nodes[0].text.value)
  {
    Nct(First(nodes))
  }

  function ExtractId(d: Doc): Option<string> { FirstText(d.pmcIds) }
  function ExtractJournal(d: Doc): Option<string> { FirstText(d.journalTitles) }
  function ExtractVolume(d: Doc): Option<string> { FirstText(d.volumes) }
  function ExtractIssue(d: Doc): Option<string> { FirstText(d.issues) }

  /** `extract_id`, `extract_journal`, `extract_volume` and `extract_issue`: the stripped
      text of the first node their path matches, None when nothing matches or the first
      match has no text. Later matches play no part. */
  lemma SingleNodeExtractors(d: Doc, later: seq<Node>)
    ensures ExtractId(d).Some? <==> d.pmcIds != [] && d.pmcIds[0].text.Some?
    ensures ExtractId(d).Some? ==> ExtractId(d).value == Strip(d.pmcIds[0].text.value)
    ensures ExtractJournal(d).Some? <==> d.journalTitles != [] && d.journalTitles[0].text.Some?
    ensures ExtractJournal(d).Some? ==> ExtractJournal(d).value == Strip(d.journalTitles[0].text.value)
    ensures ExtractVolume(d).Some? <==> d.volumes != [] && d.volumes[0].text.Some?
    ensures ExtractVolume(d).Some? ==> ExtractVolume(d).value == Strip(d.volumes[0].text.value)
    ensures ExtractIssue(d).Some? <==> d.issues != [] && d.issues[0].text.Some?
    ensures ExtractIssue(d).Some? ==> ExtractIssue(d).value == Strip(d.issues[0].text.value)
    ensures d.pmcIds != [] ==> ExtractId(d.(pmcIds := d.pmcIds + later)) == ExtractId(d)
    ensures d.journalTitles != [] ==> ExtractJournal(d.(journalTitles := d.journalTitles + later)) == ExtractJournal(d)
    ensures d.volumes != [] ==> ExtractVolume(d.(volumes := d.volumes + later)) == ExtractVolume(d)
    ensures d.issues != [] ==> ExtractIssue(d.(issues := d.issues + later)) == ExtractIssue(d)
  {
    if d.pmcIds != [] {
      assert (d.pmcIds + later)[0] == d.pmcIds[0];
    }
    if d.journalTitles != [] {
      assert (d.journalTitles + later)[0] == d.journalTitles[0];
    }
    if d.volumes != [] {
      assert (d.volumes + later)[0] == d.volumes[0];
    }
    if d.issues != [] {
      assert (d.issues + later)[0] == d.issues[0];
    }
  }

  /** `map(_nct, nodes)` */
  function NodeTexts(nodes: seq<Node>): (r: seq<Option<string>>)
    ensures |r| == |nodes| && forall i :: 0 <= i < |nodes| ==> r[i] == Nct(Some(nodes[i]))
  {
    seq(|nodes|, i requires 0 <= i < |nodes| => Nct(Some(nodes[i])))
  }

  /** The stripped texts of the nodes that have text, in document order. */
  function PresentTexts(nodes: seq<Node>): seq<string> {
    Somes(NodeTexts(nodes))
  }

  /** Joining texts that have no outer whitespace with `;` gives text without outer
      whitespace, which is empty only for no texts or a single empty one. */
  lemma {:induction false} JoinNoOuterSpace(xs: seq<string>)
    requires forall i :: 0 <= i < |xs| ==> NoOuterSpace(xs[i])
    ensures NoOuterSpace(Join(";", xs))
    ensures Join(";", xs) == [] <==> xs == [] || xs == [""]
  {
    if |xs| > 1 {
      var rest := Join(";", xs[1..]);
      JoinNoOuterSpace(xs[1..]);
      var j := xs[0] + (";" + rest);
      assert Join(";", xs) == j;
      assert j[|xs[0]|] == ';';
      if xs[0] == [] {
        assert j[0] == ';';
      } else {
        assert j[0] == xs[0][0];
      }
      if rest == [] {
        assert j[|j| - 1] == ';';
      } else {
        assert j[|j| - 1] == rest[|rest| - 1];
      }
    }
  }

  /** `_ncs(';'.join(texts))` for stripped texts. */
  lemma NcsOfJoin(xs: seq<string>)
    requires forall i :: 0 <= i < |xs| ==> NoOuterSpace(xs[i])
    ensures Ncs(Some(Join(";", xs))) == if xs == [] || xs == [""] then None else Some(Join(";", xs))
  {
    JoinNoOuterSpace(xs);
    StripKeeps(Join(";", xs));
  }

  lemma PresentTextsStripped(nodes: seq<Node>)
    ensures forall i :: 0 <= i < |PresentTexts(nodes)| ==> NoOuterSpace(PresentTexts(nodes)[i])
  {
    SomesStripped(NodeTexts(nodes));
  }

  lemma {:induction false} SomesStripped(s: seq<Option<string>>)
    requires forall i :: 0 <= i < |s| ==> s[i].Some? ==> NoOuterSpace(s[i].value)
    ensures forall i :: 0 <= i < |Somes(s)| ==> NoOuterSpace(Somes(s)[i])
  {
    if s != [] {
      SomesStripped(s[1..]);
    }
  }

  /** `_ncs(';'.join([x for x in map(_nct, nodes) if x is not None]))`, as used for the
      category and the ISSN: the texts of the nodes that have one, `;`-separated; None when
      there is no text at all or only a single empty one. */
  function JoinedTexts(nodes: seq<Node>): (r: Option<string>)
    ensures r.None? <==> PresentTexts(nodes) == [] || PresentTexts(nodes) == [""]
    ensures r.Some? ==> r.value == Join(";", PresentTexts(nodes))
  {
    PresentTextsStripped(nodes);
    NcsOfJoin(PresentTexts(nodes));
    Ncs(Some(Join(";", Somes(NodeTexts(nodes)))))
  }

  /** When no text contains `;`, splitting a joined value on `;` recovers the texts. */
  lemma JoinedTextsSplit(nodes: seq<Node>)
    requires JoinedTexts(nodes).Some?
    requires forall i :: 0 <= i < |PresentTexts(nodes)| ==> ';' !in PresentTexts(nodes)[i]
    ensures SplitOn(';', JoinedTexts(nodes).value) == PresentTexts(nodes)
  {
    SplitOnJoin(';', PresentTexts(nodes));
  }

  function ExtractCategory(d: Doc): Option<string> { JoinedTexts(d.subjects) }
  function ExtractIssn(d: Doc): Option<string> { JoinedTexts(d.issns) }

  /** `extract_doi`: the join keeps the Nones, so a text-less DOI node raises; otherwise the
      result is that of the filtered join. */
  function ExtractDoi(d: Doc): Outcome<Option<string>> {
    StrictJoinedTexts(d.dois)
  }

  /** `_ncs(';'.join(map(_nct, nodes)))`: the join raises as soon as one node has no text;
      otherwise the value is that of `JoinedTexts`. */
  function StrictJoinedTexts(nodes: seq<Node>): (r: Outcome<Option<string>>)
    ensures r.Raise? <==> exists i :: 0 <= i < |nodes| && nodes[i].text.None?
    ensures r.Raise? ==> r.error == JoinedNone
    ensures r.Ok? ==> r.value == JoinedTexts(nodes)
  {
    NodeTextsPresent(nodes);
    match JoinAll(";", NodeTexts(nodes))
    case Raise(e) => Raise(e)
    case Ok(s) => Ok(Ncs(Some(s)))
  }

  /** A node's `_nct` is None exactly when the node has no text. */
  lemma NodeTextsPresent(nodes: seq<Node>)
    ensures (forall i :: 0 <= i < |nodes| ==> NodeTexts(nodes)[i].Some?) <==> !exists i :: 0 <= i < |nodes| && nodes[i].text.None?
  {
    var t := NodeTexts(nodes);
    forall i | 0 <= i < |nodes|
      ensures t[i].Some? <==> nodes[i].text.Some?
    {
      assert t[i] == Nct(Some(nodes[i]));
    }
  }

  /** `extract_year`: the least of the listed years; raises when none is listed or one is no
      integer. */
  function ExtractYear(d: Doc): (r: Outcome<int>)
    ensures r.Ok? <==> d.yearTexts != [] && forall i :: 0 <= i < |d.yearTexts| ==> ParseInt(d.yearTexts[i]).Ok?
    ensures r.Ok? ==> forall i :: 0 <= i < |d.yearTexts| ==> ParseInt(d.yearTexts[i]).Ok? && r.value <= ParseInt(d.yearTexts[i]).value
    ensures r.Ok? ==> exists i :: 0 <= i < |d.yearTexts| && ParseInt(d.yearTexts[i]) == Ok(r.value)
    ensures r.Raise? ==> IsValueError(r.error)
  {
    match ParseAll(d.yearTexts)
    case Raise(e) => Raise(e)
    case Ok(ys) =>
      LeastYear(d.yearTexts, ys);
      Min(ys)
  }

  lemma LeastYear(texts: seq<string>, ys: seq<int>)
    requires |ys| == |texts| && forall i :: 0 <= i < |texts| ==> ParseInt(texts[i]).Ok? && ys[i] == ParseInt(texts[i]).value
    ensures Min(ys).Ok? <==> texts != []
    ensures Min(ys).Ok? ==> forall i :: 0 <= i < |texts| ==> ParseInt(texts[i]).Ok? && Min(ys).value <= ParseInt(texts[i]).value
    ensures Min(ys).Ok? ==> exists i :: 0 <= i < |texts| && ParseInt(texts[i]) == Ok(Min(ys).value)
  {
    var m := Min(ys);
    if m.Ok? {
      var i :| 0 <= i < |ys| && ys[i] == m.value;
      assert ParseInt(texts[i]) == Ok(m.value);
    }
  }

  function FirstOr(xs: seq<string>): string {
    if xs == [] then "" else xs[0]
  }

  /** `_extract_author_name`: the stripped `"given sur"` when longer than three characters,
      else `"???"`; a missing part counts as empty. */
  function AuthorName(a: AuthorNode): (r: string)
    ensures var full := Strip(FirstOr(a.givenNames) + " " + FirstOr(a.surnames));
      (|full| > 3 ==> r == full) && (|full| <= 3 ==> r == "???")
    ensures |r| >= 3 && NoOuterSpace(r)
  {
    var full := Strip(FirstOr(a.givenNames) + " " + FirstOr(a.surnames));
    StripMeaning(FirstOr(a.givenNames) + " " + FirstOr(a.surnames));
    if |full| > 3 then full else PlaceholderHasNoOuterSpace(); "???"
  }

  lemma PlaceholderHasNoOuterSpace()
    ensures NoOuterSpace("???")
  {
    assert !IsSpace('?');
  }

  /** A surname alone that is too short gives the placeholder. */
  lemma ShortAuthorName()
    ensures AuthorName(AuthorNode([], ["Li"])) == "???"
  {
    var full := FirstOr([]) + " " + FirstOr(["Li"]);
    assert |full| == 3;
    StripMeaning(full);
  }

  /** A full name longer than three characters is kept. */
  lemma FullAuthorName()
    ensures AuthorName(AuthorNode(["Wei"], ["Li"])) == "Wei Li"
  {
    var full := FirstOr(["Wei"]) + " " + FirstOr(["Li"]);
    assert full == "Wei Li";
    assert !IsSpace(full[0]) && !IsSpace(full[5]);
    StripKeeps(full);
  }

  function AuthorNames(authors: seq<AuthorNode>): (r: seq<string>)
    ensures |r| == |authors| && forall i :: 0 <= i < |authors| ==> r[i] == AuthorName(authors[i])
  {
    seq(|authors|, i requires 0 <= i < |authors| => AuthorName(authors[i]))
  }

  /** `extract_authors`: None without authors, else every author's name, `;`-separated. */
  function ExtractAuthors(d: Doc): (r: Option<string>)
    ensures r.None? <==> d.authors == []
    ensures r.Some? ==> r.value == Join(";", AuthorNames(d.authors))
  {
    var names := AuthorNames(d.authors);
    NcsOfJoin(names);
    assert |names| == 1 ==> names[0] != "";
    Ncs(Some(Join(";", names)))
  }

  /** Names free of `;` are recovered by splitting the joined value. */
  lemma ExtractAuthorsSplit(d: Doc)
    requires d.authors != []
    requires forall i :: 0 <= i < |d.authors| ==> ';' !in AuthorName(d.authors[i])
    ensures SplitOn(';', ExtractAuthors(d).value) == AuthorNames(d.authors)
  {
    SplitOnJoin(';', AuthorNames(d.authors));
  }

  /** `extract_title`: the concatenated title text with its whitespace collapsed; None when
      that text is blank. */
  function ExtractTitle(d: Doc): (r: Option<string>)
    ensures r.None? <==> AllSpace(Flatten(d.titleTexts))
    ensures r.Some? ==> r.value != [] && IsCollapsed(r.value)
    ensures r.Some? ==> Split(r.value) == Split(Flatten(d.titleTexts))
  {
    var c := Collapse(Flatten(d.titleTexts));
    CollapseMeaning(Flatten(d.titleTexts));
    CollapsedHasNoOuterSpace(c);
    StripKeeps(c);
    Ncs(Some(c))
  }

  /** A paragraph: the in-order concatenation of its descendant texts. */
  function ParagraphTexts(nodes: seq<Node>): (r: seq<string>)
    ensures |r| == |nodes| && forall i :: 0 <= i < |nodes| ==> r[i] == Flatten(nodes[i].texts)
  {
    seq(|nodes|, i requires 0 <= i < |nodes| => Flatten(nodes[i].texts))
  }

  /** `_extract_paragraphs`: the paragraphs of the first candidate path with a match, or `[]`. */
  function ExtractParagraphs(candidates: seq<seq<Node>>): (r: seq<string>)
    ensures r == [] <==> forall k :: 0 <= k < |candidates| ==> candidates[k] == []
    ensures r != [] ==> exists k :: (0 <= k < |candidates| && candidates[k] != []
      && (forall j :: 0 <= j < k ==> candidates[j] == []) && r == ParagraphTexts(candidates[k]))
  {
    if candidates == [] then []
    else
      var result := ParagraphTexts(candidates[0]);
      if |result| > 0 then result
      else
        var r := ExtractParagraphs(candidates[1..]);
        assert forall k :: 1 <= k < |candidates| ==> candidates[k] == candidates[1..][k - 1];
        r
  }

  /** Paths after the first matching one are never consulted. */
  lemma {:induction false} ParagraphsIgnoreLater(candidates: seq<seq<Node>>, later: seq<seq<Node>>)
    requires exists k :: 0 <= k < |candidates| && candidates[k] != []
    ensures ExtractParagraphs(candidates + later) == ExtractParagraphs(candidates)
  {
    if candidates[0] == [] {
      var k :| 0 <= k < |candidates| && candidates[k] != [];
      assert candidates[1..][k - 1] == candidates[k];
      assert (candidates + later)[1..] == candidates[1..] + later;
      ParagraphsIgnoreLater(candidates[1..], later);
    }
  }

  /** `_ncls(_extract_paragraphs(root, [first, second]))`, as in `extract_abstract` and
      `extract_body`. */
  function FirstParagraphs(first: seq<Node>, second: seq<Node>): (r: Option<seq<string>>)
    ensures r.None? <==> first == [] && second == []
    ensures r.Some? ==> r.value == ParagraphTexts(if first != [] then first else second)
  {
    var cs := [first, second];
    var p := ExtractParagraphs(cs);
    assert cs[0] == first && cs[1] == second;
    Ncls(Some(p))
  }

  function ExtractAbstract(d: Doc): Option<seq<string>> {
    FirstParagraphs(d.abstractParagraphs, d.transAbstractParagraphs)
  }

  function ExtractBody(d: Doc): Option<seq<string>> {
    FirstParagraphs(d.sectionParagraphs, d.bodyParagraphs)
  }

  function ExtractReferences(d: Doc): nat { |d.references| }

  /** The extractors exported by `src/oas/utils/__init__.py`. */
  datatype Field = Id | Journal | Volume | Issue | Category | Doi | Year | Issn | Authors | Title | Abstract | Body | References

  function Str(s: Option<string>): Option<Value> {
    if s.Some? then Some(StrV(s.value)) else None
  }

  function List(l: Option<seq<string>>): Option<Value> {
    if l.Some? then Some(ListV(l.value)) else None
  }

  /** Running one extractor on a parsed document. Only the DOI and year extractors can
      raise; the reference count is always an integer; a list is never empty. */
  function Run(f: Field, d: Doc): (r: Outcome<Option<Value>>)
    ensures r.Raise? ==> f == Doi || f == Year
    ensures f == References ==> r == Ok(Some(IntV(|d.references|)))
    ensures r.Ok? && r.value.Some? ==> (r.value.value.IntV? <==> f == Year || f == References)
    ensures r.Ok? && r.value.Some? ==> (r.value.value.ListV? <==> f == Abstract || f == Body)
    ensures r.Ok? && r.value.Some? && r.value.value.ListV? ==> r.value.value.l != []
  {
    match f
    case Id => Ok(Str(ExtractId(d)))
    case Journal => Ok(Str(ExtractJournal(d)))
    case Volume => Ok(Str(ExtractVolume(d)))
    case Issue => Ok(Str(ExtractIssue(d)))
    case Category => Ok(Str(ExtractCategory(d)))
    case Doi => (match ExtractDoi(d) case Raise(e) => Raise(e) case Ok(s) => Ok(Str(s)))
    case Year => (match ExtractYear(d) case Raise(e) => Raise(e) case Ok(y) => Ok(Some(IntV(y))))
    case Issn => Ok(Str(ExtractIssn(d)))
    case Authors => Ok(Str(ExtractAuthors(d)))
    case Title => Ok(Str(ExtractTitle(d)))
    case Abstract => Ok(List(ExtractAbstract(d)))
    case Body => Ok(List(ExtractBody(d)))
    case References => Ok(Some(IntV(ExtractReferences(d))))
  }

  /** The field as an `Extractor` value. */
  function AsExtractor(f: Field): Extractor {
    d => Run(f, d)
  }
}
