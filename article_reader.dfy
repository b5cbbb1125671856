/** The content extraction of the article reader: the selector cascades for the title, the
    author and the publication date, the choice of the content container, the cleaning of that
    container, the classifier of unwanted text, and the assembly of the article record. */
module ArticleReader {
  import opened Wrappers
  import opened JsString
  import opened Dom
  import opened Selectors
  import opened Pruning
  import opened Cascade
  import opened Filtering

  // ---------------------------------------------------------------------------------------------
  // Selectors and constants

  function Tag(name: string): Compound {
    Compound(Some(name), [])
  }

  /** `[class*="fragment"]` */
  function ClassContains(fragment: string): Compound {
    Compound(None, [AttrContains("class", fragment)])
  }

  /** `.name` */
  function ClassIs(name: string): Compound {
    Compound(None, [ClassToken(name)])
  }

  const UntitledArticle: string := "Untitled Article"

  const TitleSelectors: seq<Selector> := [
    Simple(Compound(Some("h1"), [AttrContains("class", "title")])),     // h1[class*="title"]
    Simple(Compound(Some("h1"), [AttrContains("class", "headline")])),  // h1[class*="headline"]
    Descendant(ClassContains("article-title"), Tag("h1")),              // [class*="article-title"] h1
    Descendant(ClassContains("post-title"), Tag("h1")),                 // [class*="post-title"] h1
    Simple(Compound(Some("h1"), [ClassToken("entry-title")])),          // h1.entry-title
    Simple(Tag("h1")),
    Simple(Tag("title"))
  ]

  const AuthorSelectors: seq<Selector> := [
    Descendant(ClassContains("author"), ClassContains("name")),         // [class*="author"] [class*="name"]
    Simple(ClassContains("byline")),
    Simple(Compound(None, [AttrEquals("rel", "author")])),              // [rel="author"]
    Simple(ClassContains("writer")),
    Simple(Compound(Some("meta"), [AttrEquals("name", "author")]))      // meta[name="author"]
  ]

  const DateSelectors: seq<Selector> := [
    Simple(Compound(Some("time"), [HasAttr("datetime")])),              // time[datetime]
    Simple(ClassContains("date")),
    Simple(ClassContains("publish")),
    Simple(Compound(Some("meta"), [AttrEquals("property", "article:published_time")])),
    Simple(Compound(Some("meta"), [AttrEquals("name", "date")]))
  ]

  const ContentSelectors: seq<Selector> := [
    Simple(Tag("article")),
    Simple(ClassContains("article-content")),
    Simple(ClassContains("post-content")),
    Simple(ClassContains("entry-content")),
    Simple(ClassContains("content-body")),
    Simple(Tag("main")),
    Simple(ClassIs("content"))
  ]

  /** The container tried when none of `ContentSelectors` matches. */
  const BodySelector: Selector := Simple(Tag("body"))

  /** The boilerplate removed from the cleaned copy, in the order it is removed. */
  const UnwantedSelectors: seq<Compound> := [
    Tag("script"), Tag("style"), Tag("nav"), Tag("header"), Tag("footer"),
    ClassIs("advertisement"), ClassIs("ads"), ClassIs("social"), ClassIs("share"),
    ClassIs("comments"), ClassIs("sidebar"), ClassIs("related"), ClassIs("newsletter"),
    ClassIs("popup"), ClassIs("modal")
  ]

  const ParagraphSelector: Selector := Simple(Tag("p"))

  /** A kept paragraph's trimmed text is longer than this many UTF-16 code units. */
  const MinParagraphLength: nat := 50

  /** The phrases of the unwanted-text classifier, each matched as `/phrase/i`. */
  const UnwantedPatterns: seq<string> := [
    "subscribe", "newsletter", "advertisement", "cookie",
    "privacy policy", "terms of service", "follow us", "share this"
  ]

  // ---------------------------------------------------------------------------------------------
  // The unwanted-text classifier

  /** `patterns.some(pattern => pattern.test(text))` for case-insensitive phrase patterns. */
  function SomePatternMatches(text: string, patterns: seq<string>): (r: bool)
    requires forall k :: 0 <= k < |patterns| ==> IsLowerPhrase(patterns[k])
    ensures r <==> exists k :: 0 <= k < |patterns| && TestIgnoringCase(text, patterns[k])
  {
    if patterns == [] then false
    else
      var rest := SomePatternMatches(text, patterns[1..]);
      assert forall k :: 1 <= k < |patterns| ==> patterns[k] == patterns[1..][k - 1];
      ContainsIgnoringCase(text, patterns[0]) || rest
  }

  lemma UnwantedPatternsAreLowerPhrases()
    ensures forall k :: 0 <= k < |UnwantedPatterns| ==> IsLowerPhrase(UnwantedPatterns[k])
  {
  }

  /** `isUnwantedContent(text)`: some phrase occurs in `text`, ignoring the case of letters. */
  function IsUnwantedContent(text: string): (r: bool)
    ensures r <==> exists k :: 0 <= k < |UnwantedPatterns| && TestIgnoringCase(text, UnwantedPatterns[k])
  {
    UnwantedPatternsAreLowerPhrases();
    SomePatternMatches(text, UnwantedPatterns)
  }

  /** The classifier ignores case: a text and its lower-cased form are judged alike. */
  lemma UnwantedContentIgnoresCase(text: string)
    ensures IsUnwantedContent(Lowered(text)) == IsUnwantedContent(text)
  {
    forall k | 0 <= k < |UnwantedPatterns|
      ensures TestIgnoringCase(Lowered(text), UnwantedPatterns[k]) <==> TestIgnoringCase(text, UnwantedPatterns[k])
    {
      TestIgnoresCaseOfText(text, UnwantedPatterns[k]);
    }
  }

  /** A text in which one of the phrases occurs literally is unwanted. */
  lemma PhraseMakesUnwanted(text: string, k: nat, i: nat)
    requires k < |UnwantedPatterns| && OccursAt(UnwantedPatterns[k], text, i)
    ensures IsUnwantedContent(text)
  {
    var p := UnwantedPatterns[k];
    var w := text[i..i + |p|];
    assert forall j :: 0 <= j < |p| ==> w[j] == p[j];
    assert MatchesAtIgnoringCase(text, p, i);
  }

  // ---------------------------------------------------------------------------------------------
  // The cleaner

  /** The paragraph filter: trimmed text longer than the threshold and not unwanted. */
  predicate Qualifies(p: Node) {
    var text := Trim(TextContent(p));
    Utf16Length(text) > MinParagraphLength && !IsUnwantedContent(text)
  }

  /** `Array.from(paragraphs).filter(...)`. */
  function ValidParagraphs(ps: seq<Node>): seq<Node> {
    Filter(ps, Qualifies)
  }

  /** The filter keeps exactly the qualifying paragraphs, every one of them, in their order. */
  lemma ValidParagraphsSelectExactly(ps: seq<Node>)
    ensures var r, pos := ValidParagraphs(ps), KeptPositions(ps, Qualifies);
            && |r| == |pos|
            && (forall j :: 0 <= j < |pos| ==> pos[j] < |ps| && r[j] == ps[pos[j]])
            && (forall j1, j2 :: 0 <= j1 < j2 < |pos| ==> pos[j1] < pos[j2])
            && (forall i :: 0 <= i < |ps| ==> (Qualifies(ps[i]) <==> i in pos))
  {
    KeptPositionsAreExact(ps, Qualifies);
    FilterAtKeptPositions(ps, Qualifies);
  }

  /** What `cleanContent(container)` returns: the qualifying paragraphs of the cleaned copy when
      there is one, else everything the cleaned copy holds (its `innerHTML`). */
  function Cleaned(container: Node): seq<Node>
    requires container.Element?
  {
    var clone := RemoveAll(container, UnwantedSelectors);
    var valid := ValidParagraphs(QueryAll(clone, ParagraphSelector));
    if |valid| > 0 then valid else clone.children
  }

  /** Nothing in the cleaned content, at any depth, matches any of the boilerplate selectors. */
  lemma CleanedIsFreeOfBoilerplate(container: Node)
    requires container.Element?
    ensures forall k :: 0 <= k < |UnwantedSelectors| ==> Free(Cleaned(container), UnwantedSelectors[k])
  {
    var clone := RemoveAll(container, UnwantedSelectors);
    var hits := Hits(clone.children, [clone]);
    var valid := ValidParagraphs(QueryAll(clone, ParagraphSelector));
    RemoveAllIsFree(container, UnwantedSelectors);
    FilterIsAmong(QueryAll(clone, ParagraphSelector), Qualifies);
    forall k | 0 <= k < |UnwantedSelectors|
      ensures Free(Cleaned(container), UnwantedSelectors[k])
    {
      var c := UnwantedSelectors[k];
      HitsOfFree(clone.children, [clone], c);
      forall x | x in valid
        ensures Free([x], c)
      {
        var h :| h in hits && h.node == x && Matches(h, ParagraphSelector);
      }
      FreeOfEach(valid, c);
    }
  }

  /** When a paragraph qualifies, the cleaned content is the qualifying paragraphs of the cleaned
      copy, all of them and in document order; otherwise it is the whole cleaned copy. */
  lemma CleanedSelection(container: Node)
    requires container.Element?
    ensures var clone := RemoveAll(container, UnwantedSelectors);
            var ps := QueryAll(clone, ParagraphSelector);
            var pos := KeptPositions(ps, Qualifies);
            var r := Cleaned(container);
            && (pos != [] ==>
                  && |r| == |pos|
                  && (forall j :: 0 <= j < |pos| ==> pos[j] < |ps| && r[j] == ps[pos[j]])
                  && (forall j1, j2 :: 0 <= j1 < j2 < |pos| ==> pos[j1] < pos[j2])
                  && (forall i :: 0 <= i < |ps| ==> (Qualifies(ps[i]) <==> i in pos)))
            && (pos == [] ==> (forall i :: 0 <= i < |ps| ==> !Qualifies(ps[i])) && r == clone.children)
  {
    var clone := RemoveAll(container, UnwantedSelectors);
    ValidParagraphsSelectExactly(QueryAll(clone, ParagraphSelector));
  }

  /** The removal loop of `cleanContent`: the copy loses the matches of each boilerplate selector
      in turn. The container is a value, so the copy is the only thing changed. */
  method RemoveBoilerplate(container: Node) returns (clone: Node)
    ensures clone == RemoveAll(container, UnwantedSelectors)
  {
    clone := container;
    for i := 0 to |UnwantedSelectors|
      invariant clone == RemoveAll(container, UnwantedSelectors[..i])
    {
      assert UnwantedSelectors[..i + 1][..i] == UnwantedSelectors[..i];
      clone := RemoveMatching(clone, UnwantedSelectors[i]);
    }
    assert UnwantedSelectors[..|UnwantedSelectors|] == UnwantedSelectors;
  }

  /** The new `div` that receives a copy of each kept paragraph, one `appendChild` after the other;
      its children are what the `innerHTML` of the `div` serialises. */
  method AppendEach(nodes: seq<Node>) returns (div: seq<Node>)
    ensures div == nodes
  {
    div := [];
    for i := 0 to |nodes|
      invariant div == nodes[..i]
    {
      assert nodes[..i + 1] == nodes[..i] + [nodes[i]];
      div := div + [nodes[i]];
    }
    assert nodes[..|nodes|] == nodes;
  }

  /** `cleanContent(container)`: copy the container, remove the boilerplate from the copy, then keep
      the qualifying paragraphs if there are any, else everything the copy still holds. */
  method CleanContent(container: Node) returns (fragment: seq<Node>)
    requires container.Element?
    ensures fragment == Cleaned(container)
  {
    var clone := RemoveBoilerplate(container);
    var paragraphs := QueryAll(clone, ParagraphSelector);
    var validParagraphs := ValidParagraphs(paragraphs);
    if |validParagraphs| > 0 {
      fragment := AppendEach(validParagraphs);
    } else {
      fragment := clone.children;
    }
  }

  // ---------------------------------------------------------------------------------------------
  // The field cascades

  /** What the title cascade reads from the first match of `sel`: its trimmed text, if not empty. */
  function TitleCandidate(doc: Node, sel: Selector): Option<string> {
    match QueryFirst(doc, sel)
    case None => None
    case Some(element) =>
      var text := Trim(TextContent(element));
      if text != "" then Some(text) else None
  }

  lemma TitleCandidateIsTrimmed(doc: Node, sel: Selector)
    ensures var r := TitleCandidate(doc, sel); r.Some? ==> r.value != "" && IsTrimmed(r.value)
  {
  }

  function TitleProbe(doc: Node): Selector -> Option<string> {
    sel => TitleCandidate(doc, sel)
  }

  function TitleCandidates(doc: Node): seq<Option<string>> {
    Candidates(TitleSelectors, TitleProbe(doc))
  }

  /** `extractTitle(doc)`: the first selector whose first match has non-empty trimmed text gives
      the title, and "Untitled Article" stands in when none does; so the title is never empty. */
  method ExtractTitle(doc: Node) returns (title: string)
    ensures FirstMatchOr(TitleCandidates(doc), UntitledArticle, title)
    ensures title != "" && IsTrimmed(title)
  {
    title := FirstOf(TitleSelectors, TitleProbe(doc), UntitledArticle);
    FirstMatchOrIsCandidate(TitleCandidates(doc), UntitledArticle, title);
    if title != UntitledArticle {
      var i :| 0 <= i < |TitleSelectors| && TitleCandidates(doc)[i] == Some(title);
      TitleCandidateIsTrimmed(doc, TitleSelectors[i]);
    }
  }

  /** `element.textContent || element.getAttribute('content') || ''`. */
  function AuthorText(element: Node): (s: string)
    ensures TextContent(element) != "" ==> s == TextContent(element)
    ensures TextContent(element) == "" ==> s == GetAttribute(element, "content").GetOr("")
  {
    OrElse(Some(TextContent(element)), OrElse(GetAttribute(element, "content"), ""))
  }

  /** What the author cascade reads from the first match of `sel`: the trimmed author text, if not empty. */
  function AuthorCandidate(doc: Node, sel: Selector): Option<string> {
    match QueryFirst(doc, sel)
    case None => None
    case Some(element) =>
      var text := AuthorText(element);
      if Trim(text) != "" then Some(Trim(text)) else None
  }

  lemma AuthorCandidateIsTrimmed(doc: Node, sel: Selector)
    ensures var r := AuthorCandidate(doc, sel); r.Some? ==> r.value != "" && IsTrimmed(r.value)
  {
  }

  function AuthorProbe(doc: Node): Selector -> Option<string> {
    sel => AuthorCandidate(doc, sel)
  }

  function AuthorCandidates(doc: Node): seq<Option<string>> {
    Candidates(AuthorSelectors, AuthorProbe(doc))
  }

  /** `extractAuthor(doc)`: the first non-empty trimmed author text in selector order, else "". */
  method ExtractAuthor(doc: Node) returns (author: string)
    ensures FirstMatchOr(AuthorCandidates(doc), "", author)
    ensures IsTrimmed(author)
  {
    author := FirstOf(AuthorSelectors, AuthorProbe(doc), "");
    FirstMatchOrIsCandidate(AuthorCandidates(doc), "", author);
    if author != "" {
      var i :| 0 <= i < |AuthorSelectors| && AuthorCandidates(doc)[i] == Some(author);
      AuthorCandidateIsTrimmed(doc, AuthorSelectors[i]);
    }
  }

  /** `datetime || content || textContent || ''`: the first of the two attributes that is present
      and not empty, else the element's text. */
  function DateString(element: Node): (s: string)
    ensures var dt, ct := GetAttribute(element, "datetime"), GetAttribute(element, "content");
            && (dt.Some? && dt.value != "" ==> s == dt.value)
            && (dt.GetOr("") == "" && ct.Some? && ct.value != "" ==> s == ct.value)
            && (dt.GetOr("") == "" && ct.GetOr("") == "" ==> s == TextContent(element))
  {
    OrElse(GetAttribute(element, "datetime"),
           OrElse(GetAttribute(element, "content"), OrElse(Some(TextContent(element)), "")))
  }

  /** What the date cascade reads from an element, with `parse` standing for `new Date(...)`
      (`None` for an invalid date) and `format` for `toLocaleDateString`. An empty string and a
      string that does not parse both yield nothing, so the next selector is tried. */
  function DateOf<D>(element: Node, parse: string -> Option<D>, format: D -> string): (r: Option<string>)
    ensures var dateStr := Trim(DateString(element));
            r.Some? <==> dateStr != "" && parse(dateStr).Some?
    ensures var dateStr := Trim(DateString(element));
            r.Some? ==> r.value == format(parse(dateStr).value)
  {
    var dateStr := Trim(DateString(element));
    if dateStr == "" then None
    else
      match parse(dateStr)
      case None => None
      case Some(date) => Some(format(date))
  }

  function DateCandidate<D>(doc: Node, sel: Selector, parse: string -> Option<D>, format: D -> string): Option<string> {
    match QueryFirst(doc, sel)
    case None => None
    case Some(element) => DateOf(element, parse, format)
  }

  /** A selector yields a date exactly when it matches an element whose trimmed date string is
      non-empty and parses, and the date is that parse, formatted. */
  lemma DateCandidateIsParsed<D>(doc: Node, sel: Selector, parse: string -> Option<D>, format: D -> string)
    ensures var r, e := DateCandidate(doc, sel, parse, format), QueryFirst(doc, sel);
            && (r.Some? <==> e.Some? && Trim(DateString(e.value)) != "" && parse(Trim(DateString(e.value))).Some?)
            && (r.Some? ==> r.value == format(parse(Trim(DateString(e.value))).value))
  {
  }

  function DateProbe<D>(doc: Node, parse: string -> Option<D>, format: D -> string): Selector -> Option<string> {
    sel => DateCandidate(doc, sel, parse, format)
  }

  function DateCandidates<D>(doc: Node, parse: string -> Option<D>, format: D -> string): seq<Option<string>> {
    Candidates(DateSelectors, DateProbe(doc, parse, format))
  }

  /** `extractDate(doc)`: the formatted date of the first selector whose date string parses, else "". */
  method ExtractDate<D>(doc: Node, parse: string -> Option<D>, format: D -> string) returns (date: string)
    ensures FirstMatchOr(DateCandidates(doc, parse, format), "", date)
    ensures date != "" ==>
              exists i :: 0 <= i < |DateSelectors| && QueryFirst(doc, DateSelectors[i]).Some? &&
                          DateOf(QueryFirst(doc, DateSelectors[i]).value, parse, format) == Some(date)
  {
    date := FirstOf(DateSelectors, DateProbe(doc, parse, format), "");
    FirstMatchOrIsCandidate(DateCandidates(doc, parse, format), "", date);
    if date != "" {
      var i :| 0 <= i < |DateSelectors| && DateCandidates(doc, parse, format)[i] == Some(date);
      DateCandidateIsParsed(doc, DateSelectors[i], parse, format);
    }
  }

  // ---------------------------------------------------------------------------------------------
  // The content container and the article

  /** The content `extractContent` produces when its search reaches `sel`: the cleaned first
      match, however little cleaning leaves of it. */
  function ContentCandidate(doc: Node, sel: Selector): Option<seq<Node>> {
    match QueryFirst(doc, sel)
    case None => None
    case Some(container) => Some(Cleaned(container))
  }

  /** The container selectors in the order they are tried, `body` last. */
  const ContainerSelectors: seq<Selector> := ContentSelectors + [BodySelector]

  function ContentProbe(doc: Node): Selector -> Option<seq<Node>> {
    sel => ContentCandidate(doc, sel)
  }

  function ContentCandidates(doc: Node): seq<Option<seq<Node>>> {
    Candidates(ContainerSelectors, ContentProbe(doc))
  }

  /** The content search passes over a selector exactly when that selector matches nothing. */
  lemma ContentCandidateFound(doc: Node, sel: Selector)
    ensures ContentCandidate(doc, sel).None? <==> QueryFirst(doc, sel).None?
    ensures QueryFirst(doc, sel).Some? ==> ContentCandidate(doc, sel) == Some(Cleaned(QueryFirst(doc, sel).value))
  {
  }

  /** `extractContent(doc)`: clean the first container found, trying `body` after the list, and
      produce nothing (the empty string) when there is no `body` either. */
  method ExtractContent(doc: Node) returns (content: seq<Node>)
    ensures FirstMatchOr(ContentCandidates(doc), [], content)
  {
    for i := 0 to |ContentSelectors|
      invariant forall j :: 0 <= j < i ==> QueryFirst(doc, ContainerSelectors[j]).None?
    {
      assert ContainerSelectors[i] == ContentSelectors[i];
      var container := QueryFirst(doc, ContentSelectors[i]);
      if container.Some? {
        content := CleanContent(container.value);
        NoneBeforeFound(doc, i, content);
        return;
      }
    }
    var fallbackContent := QueryFirst(doc, BodySelector);
    assert ContainerSelectors[|ContentSelectors|] == BodySelector;
    if fallbackContent.Some? {
      content := CleanContent(fallbackContent.value);
      NoneBeforeFound(doc, |ContentSelectors|, content);
    } else {
      content := [];
      NoneBeforeFound(doc, |ContainerSelectors|, content);
    }
  }

  /** The content cascade in terms of the containers it finds: when the selectors before `i`
      match nothing, the cleaned match of selector `i` (or [] when `i` is past the end) is the
      content. */
  lemma NoneBeforeFound(doc: Node, i: nat, content: seq<Node>)
    requires i <= |ContainerSelectors|
    requires forall j :: 0 <= j < i ==> QueryFirst(doc, ContainerSelectors[j]).None?
    requires i < |ContainerSelectors| ==>
               && QueryFirst(doc, ContainerSelectors[i]).Some?
               && content == Cleaned(QueryFirst(doc, ContainerSelectors[i]).value)
    requires i == |ContainerSelectors| ==> content == []
    ensures FirstMatchOr(ContentCandidates(doc), [], content)
  {
    var cands := ContentCandidates(doc);
    forall j | 0 <= j < i
      ensures cands[j].None?
    {
      ContentCandidateFound(doc, ContainerSelectors[j]);
    }
    if i < |ContainerSelectors| {
      ContentCandidateFound(doc, ContainerSelectors[i]);
      assert cands[i] == Some(content);
    }
  }

  datatype Article = Article(title: string, author: string, date: string, content: seq<Node>)

  /** The article `parseArticle` assembles from a document: each field is its own cascade. */
  ghost predicate IsExtractionOf<D>(a: Article, doc: Node, parse: string -> Option<D>, format: D -> string) {
    && FirstMatchOr(TitleCandidates(doc), UntitledArticle, a.title)
    && FirstMatchOr(AuthorCandidates(doc), "", a.author)
    && FirstMatchOr(DateCandidates(doc, parse, format), "", a.date)
    && FirstMatchOr(ContentCandidates(doc), [], a.content)
  }

  /** `parseArticle(doc, url)`; the URL is not consulted. */
  method ParseArticle<D>(doc: Node, url: string, parse: string -> Option<D>, format: D -> string)
    returns (article: Article)
    ensures IsExtractionOf(article, doc, parse, format)
    ensures article.title != "" && IsTrimmed(article.title) && IsTrimmed(article.author)
    ensures forall k :: 0 <= k < |UnwantedSelectors| ==> Free(article.content, UnwantedSelectors[k])
  {
    var title := ExtractTitle(doc);
    var author := ExtractAuthor(doc);
    var date := ExtractDate(doc, parse, format);
    var content := ExtractContent(doc);
    article := Article(title, author, date, content);
    ContentIsFreeOfBoilerplate(doc, content);
  }

  /** Whatever container the content cascade settles on, no boilerplate survives in its content. */
  lemma ContentIsFreeOfBoilerplate(doc: Node, content: seq<Node>)
    requires FirstMatchOr(ContentCandidates(doc), [], content)
    ensures forall k :: 0 <= k < |UnwantedSelectors| ==> Free(content, UnwantedSelectors[k])
  {
    if i :| 0 <= i < |ContentCandidates(doc)| && ContentCandidates(doc)[i] == Some(content) {
      var container := QueryFirst(doc, ContainerSelectors[i]).value;
      CleanedIsFreeOfBoilerplate(container);
    }
  }

  /** Extraction is a function of the document: two extractions of one document agree on every field. */
  lemma ExtractionIsDeterministic<D>(doc: Node, parse: string -> Option<D>, format: D -> string, a1: Article, a2: Article)
    requires IsExtractionOf(a1, doc, parse, format)
    requires IsExtractionOf(a2, doc, parse, format)
    ensures a1 == a2
  {
    FirstMatchOrIsUnique(TitleCandidates(doc), UntitledArticle, a1.title, a2.title);
    FirstMatchOrIsUnique(AuthorCandidates(doc), "", a1.author, a2.author);
    FirstMatchOrIsUnique(DateCandidates(doc, parse, format), "", a1.date, a2.date);
    FirstMatchOrIsUnique(ContentCandidates(doc), [], a1.content, a2.content);
  }

  /** A document without any `h1` or `title` element gets exactly the placeholder title. */
  lemma NoHeadingMeansUntitled(doc: Node, title: string)
    requires NoneTagged(Hits([doc], []), "h1") && NoneTagged(Hits([doc], []), "title")
    requires FirstMatchOr(TitleCandidates(doc), UntitledArticle, title)
    ensures title == UntitledArticle
  {
    forall k | 0 <= k < |TitleSelectors|
      ensures TitleCandidates(doc)[k].None?
    {
      NoHeadingNoCandidate(doc, TitleSelectors[k]);
    }
  }

  /** Every title selector names `h1` or `title`, so without those it yields nothing. */
  lemma NoHeadingNoCandidate(doc: Node, sel: Selector)
    requires sel in TitleSelectors
    requires NoneTagged(Hits([doc], []), "h1") && NoneTagged(Hits([doc], []), "title")
    ensures TitleCandidate(doc, sel).None?
  {
    if sel.subject.tag == Some("h1") {
      UnmatchedTag(Hits([doc], []), sel, "h1");
    } else {
      UnmatchedTag(Hits([doc], []), sel, "title");
    }
  }
}
