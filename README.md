# ArticleReader content extraction in Dafny

A model of the extraction core of the `ArticleReader` class in `script.js`. The class turns a parsed
HTML document into an article record with four fields:

- **title**: a cascade of seven selectors, falling back to "Untitled Article";
- **author**: a cascade of five selectors, each reading the element's text or else its `content` attribute, falling back to "";
- **publication date**: a cascade of five selectors, each reading `datetime`, then `content`, then the text, keeping the first value that parses as a date, falling back to "";
- **content**: the first content container found, or `body`, cleaned of boilerplate and reduced to its substantial paragraphs.

The document is a value tree of element and text nodes (`Dom`). The selectors the extractor uses are
a small matcher (`Selectors`): a type selector, `.class`, `[attr]`, `[attr="v"]`, `[attr*="v"]`,
their compounds, and one descendant combinator. `querySelector` is the first match in document order;
`querySelectorAll` on an element finds its matching descendants. The JavaScript string behaviour the
extractor relies on is written out (`JsString`):

- the white-space set of `trim`;
- `length` in UTF-16 code units;
- `a || b` on strings that may be null or empty;
- `/phrase/i.test`, as the regular-expression canonicalisation defines it.

Each of the title, author and date cascades is a loop that tries its selectors in order and stops at
the first one that yields a value (`Cascade.FirstOf`). The content search has a loop of its own in
`ArticleReader.ExtractContent`, because the first container found is cleaned (the `CleanContent`
method) and returned even when cleaning leaves little. Each of these search loops is specified by
`Cascade.FirstMatchOr`: the result is the value of the first candidate that has one, or the field
default when none has.

`cleanContent` (`ArticleReader.CleanContent`) works in three steps:

- a loop copies the container and, one removal selector at a time, cuts the matching elements out of the copy;
- it filters the copy's paragraphs;
- it appends the kept ones to a new `div`.

`CleanContent` is proved against the function `Cleaned`, and the lemmas about `Cleaned` state what
the source promises:

- no element matching any boilerplate selector remains, at any depth;
- the kept paragraphs are exactly the qualifying ones, all of them and in document order;
- when no paragraph qualifies, the content is the whole cleaned copy.

The container is a value, so removing nodes from the copy cannot change the document.

What `script.js` does, and therefore what the model does:

- the cleaner keeps `<p>` elements only, with a threshold of more than 50 characters;
- the cleaner does not de-duplicate nested containers, does not rebuild paragraphs from `<br><br>` runs and does not strip anchors or icons;
- there is no site-specific table extractor;
- the only container fallback is `body`; tables and table cells are never tried.

## Model

| member | source | states |
|---|---|---|
| JsString.IsWhiteSpace | script.js:114 | defines the characters `trim` removes: ECMAScript's WhiteSpace and LineTerminator code points |
| JsString.Trim | script.js:114-115 | the result has no white space at either end and is the infix of the input between a white-space prefix and a white-space suffix |
| JsString.LeadingWhiteSpace | script.js:114 | the count of characters before the first non-white-space one: all of them white space, and the next one, if any, not |
| JsString.TrimIdempotent | script.js:114-115 | trimming twice is trimming once |
| JsString.TrimOfTrimmed | script.js:135-136 | a string without white space at its ends is its own trim |
| JsString.TrimEmptyIffAllWhiteSpace | script.js:114 | `s.trim()` is falsy exactly when `s` is all white space |
| JsString.Utf16Length | script.js:231 | `length` counts UTF-16 code units: between one and two per character |
| JsString.Utf16LengthAppend | script.js:231 | the length of a concatenation is the sum of the lengths |
| JsString.Utf16LengthOfChar | script.js:231 | a character counts two code units exactly when it lies above U+FFFF, else one |
| JsString.Utf16LengthOfBmp | script.js:231 | a string of characters up to U+FFFF has as many code units as characters |
| JsString.OrElse | script.js:134 | `a \|\| b` on strings is `a` when `a` is present and non-empty, and `b` when `a` is null or empty; so it is empty only when `b` is |
| JsString.TestIgnoringCase | script.js:257 | defines `pattern.test(text)` for an ASCII `/phrase/i`: the phrase matches at some position, each character compared after case folding |
| JsString.ContainsIgnoringCase | script.js:257 | searching the lower-cased text for a lower-case phrase is exactly the regex test `/phrase/i` |
| JsString.SearchLoweredIsRegexTest | script.js:247-257 | a substring of the lower-cased text is the same thing as a case-insensitive regex match at some position |
| JsString.TestIgnoresCaseOfText | script.js:247-257 | `/p/i` judges a text and its lower-cased form alike |
| Dom.TextContent | script.js:114 | `textContent` defines a text node's data, and an element's text as the concatenation of its descendants' text in document order (also read at script.js:134, 158, 230) |
| Dom.TextOf | script.js:114 | the text of a list of nodes is the concatenation of each node's `textContent`, in order |
| Dom.GetAttribute | script.js:134 | `getAttribute` is non-null exactly when the element carries the attribute |
| Dom.Hits | script.js:113 | defines tree order: every element of a forest and below it, in pre-order, each with its chain of ancestors, outermost first (also the traversal at script.js:224, 228) |
| Dom.HitsAreElements | script.js:113 | a traversal of the document meets only elements, never text |
| Selectors.Holds | script.js:102-129 | defines one selector condition on an element's attributes: a class token, a present attribute, `[a="v"]` (ignoring ASCII case for HTML's case-insensitive attributes) and `[a*="v"]`, which no element satisfies when `v` is empty |
| Selectors.MatchesCompound | script.js:102-108 | defines a compound selector: the element's tag, when the selector names one, and every condition hold |
| Selectors.Matches | script.js:105-106 | defines a selector at a traversed element: a compound, or a descendant combinator whose left side matches some ancestor (the combinator selectors are also at script.js:124) |
| Selectors.FirstMatch | script.js:113 | `querySelector` is empty exactly when nothing matches; otherwise it is the first match in document order |
| Selectors.QueryFirst | script.js:113 | what `doc.querySelector` returns is an element |
| Selectors.AllMatches | script.js:224 | everything `querySelectorAll` returns is a traversed element that matches |
| Selectors.QueryAll | script.js:224 | defines `element.querySelectorAll(sel)`: the matches among the traversed descendants of the scope, each with its ancestors from the scope itself (also at script.js:228) |
| Selectors.AllMatchesAreEveryMatch | script.js:224 | `querySelectorAll` returns every matching traversed element, each once, in document order |
| Selectors.RelIgnoresCase | script.js:126 | `[rel="author"]` compares the `rel` value without regard to ASCII case |
| Selectors.UnmatchedTag | script.js:108-109 | a selector naming a tag finds nothing in a document without elements of that tag |
| Pruning.PruneForest | script.js:225 | defines `elements.forEach(el => el.remove())` on a list of children: a matching node goes with its subtree, and the rest stay with their own matches removed |
| Pruning.RemoveMatching | script.js:224-225 | removing the matches of a selector keeps the copied element itself, with its tag and attributes, and leaves a text node as it is |
| Pruning.PruneForestKeepsTheRest | script.js:224-225 | removal drops exactly the matching nodes of a list of children: the rest stay, in order, each with its own matches removed |
| Pruning.RemoveAll | script.js:223-226 | the removals keep the copy an element |
| Pruning.PruneForestIsFree | script.js:224-225 | after the removal no node at any depth matches the selector |
| Pruning.PruneForestKeepsFree | script.js:223-226 | a later removal never brings back what an earlier removal took away |
| Pruning.PruneForestOfFree | script.js:224-225 | on a tree with no match the removal changes nothing |
| Pruning.RemoveMatchingIdempotent | script.js:224-225 | removing the matches of a selector twice is removing them once |
| Pruning.RemoveAllIsFree | script.js:205-226 | after all fifteen removals no descendant of the copy matches any removal selector |
| Pruning.HitsOfFree | script.js:228 | every element a later `querySelectorAll` finds in such a copy is free of the removed selectors, subtree included |
| Cascade.FirstMatchOrIsUnique | script.js:112-119 | a cascade has one result for each list of candidates |
| Cascade.FirstOf | script.js:112-119 | the loop with early return yields the value of the first candidate that has one, else the default |
| Filtering.Filter | script.js:229 | defines `Array.prototype.filter`: the elements that pass, in order |
| Filtering.KeptPositionsAreExact | script.js:229-232 | the kept positions are in range and strictly increasing, and a position is kept exactly when its element passes the filter |
| Filtering.FilterAtKeptPositions | script.js:229-232 | the filter's output is the input at the kept positions, in order |
| Filtering.FilterIsAmong | script.js:229-232 | everything the filter keeps is in the input and passes the filter |
| ArticleReader.UntitledArticle | script.js:119 | the title returned when no selector yields one |
| ArticleReader.TitleSelectors | script.js:102-110 | the seven title selectors, in the order they are tried |
| ArticleReader.AuthorSelectors | script.js:123-129 | the five author selectors, in the order they are tried |
| ArticleReader.DateSelectors | script.js:145-151 | the five date selectors, in the order they are tried |
| ArticleReader.ContentSelectors | script.js:181-189 | the seven content container selectors, in the order they are tried |
| ArticleReader.BodySelector | script.js:198 | the fallback container selector `body` |
| ArticleReader.UnwantedSelectors | script.js:205-221 | the fifteen boilerplate selectors, in the order they are removed |
| ArticleReader.ParagraphSelector | script.js:228 | the paragraph selector `p` |
| ArticleReader.MinParagraphLength | script.js:231 | the length a paragraph's trimmed text must exceed, 50 |
| ArticleReader.UnwantedPatterns | script.js:246-255 | the eight unwanted phrases, each of which the source tests as a case-insensitive regular expression |
| ArticleReader.SomePatternMatches | script.js:257 | `patterns.some(p => p.test(text))` is true exactly when some phrase matches, ignoring case |
| ArticleReader.IsUnwantedContent | script.js:245-258 | true exactly when one of the eight phrases occurs in the text, ignoring case |
| ArticleReader.UnwantedContentIgnoresCase | script.js:245-258 | the classifier judges a text and its lower-cased form alike |
| ArticleReader.PhraseMakesUnwanted | script.js:246-257 | a text in which one of the phrases occurs literally is unwanted |
| ArticleReader.Qualifies | script.js:229-232 | defines the filter callback: the paragraph's trimmed text is longer than 50 UTF-16 code units and is not unwanted |
| ArticleReader.ValidParagraphs | script.js:229-232 | defines `validParagraphs`: the paragraphs the callback accepts |
| ArticleReader.ValidParagraphsSelectExactly | script.js:228-232 | the filter keeps exactly the paragraphs whose trimmed text is longer than 50 and not unwanted, all of them, in document order |
| ArticleReader.Cleaned | script.js:202-243 | defines what `cleanContent` returns: the copy with every boilerplate match removed, reduced to its qualifying paragraphs when there are any, else all of the copy's children |
| ArticleReader.CleanedIsFreeOfBoilerplate | script.js:205-243 | no node of the cleaned content, at any depth, matches any of the fifteen boilerplate selectors |
| ArticleReader.CleanedSelection | script.js:228-242 | when a paragraph qualifies, the content is the qualifying paragraphs of the cleaned copy in order and all of them; otherwise none qualifies and the content is the whole cleaned copy |
| ArticleReader.RemoveBoilerplate | script.js:203-226 | the removal loop leaves the copy with the matches of every removal selector cut off, in list order |
| ArticleReader.AppendEach | script.js:235-238 | the new `div` receives the kept paragraphs in order |
| ArticleReader.CleanContent | script.js:202-243 | `cleanContent` produces the cleaned content of the container |
| ArticleReader.TitleCandidate | script.js:113-115 | defines the title loop body: the trimmed text of the selector's first match, when there is a match and its trimmed text is non-empty |
| ArticleReader.TitleCandidateIsTrimmed | script.js:113-115 | a title a selector yields is non-empty and trimmed |
| ArticleReader.ExtractTitle | script.js:101-120 | the title is the trimmed text of the first selector whose first match has non-empty trimmed text, else "Untitled Article"; it is never empty and always trimmed |
| ArticleReader.NoHeadingMeansUntitled | script.js:101-120 | a document without `h1` and `title` elements gets exactly "Untitled Article" |
| ArticleReader.NoHeadingNoCandidate | script.js:102-114 | in a document without `h1` or `title` elements, no title selector yields a candidate |
| ArticleReader.AuthorText | script.js:134 | the author text is the element's text when non-empty, else its `content` attribute, else "" |
| ArticleReader.AuthorCandidate | script.js:132-137 | defines the author loop body: the trimmed author text of the selector's first match, when there is a match and that text is non-empty |
| ArticleReader.AuthorCandidateIsTrimmed | script.js:133-137 | an author a selector yields is non-empty and trimmed |
| ArticleReader.ExtractAuthor | script.js:122-142 | the author is the first non-empty trimmed author text in selector order, else ""; it is always trimmed |
| ArticleReader.DateString | script.js:156-158 | `datetime` when present and non-empty, else `content` when present and non-empty, else the text |
| ArticleReader.DateOf | script.js:156-169 | an element yields a date exactly when its trimmed date string is non-empty and parses, and the date is that parse, formatted |
| ArticleReader.DateCandidate | script.js:154-173 | defines the date loop body: the date the selector's first match yields, if there is a match |
| ArticleReader.DateCandidateIsParsed | script.js:154-169 | a selector yields a date exactly when its first match has a trimmed date string that is non-empty and parses; the date is that parse, formatted |
| ArticleReader.ExtractDate | script.js:144-178 | the date is the formatted date of the first selector whose trimmed date string is non-empty and parses, else ""; a parse failure only moves on to the next selector; a non-empty date is what the first match of one of the selectors yields |
| ArticleReader.ContentCandidate | script.js:192-194 | defines the content loop body: the cleaned first match of the selector, if there is one |
| ArticleReader.ContentCandidateFound | script.js:192-194 | the content search passes over a selector exactly when it matches nothing, and otherwise cleans its first match |
| ArticleReader.NoneBeforeFound | script.js:191-199 | when the earlier containers are missing, the cleaned container found next, or nothing past `body`, is the content |
| ArticleReader.ExtractContent | script.js:180-200 | the content is the cleaned first container in selector order, even if cleaning leaves little; else the cleaned `body`; else nothing |
| ArticleReader.ContentIsFreeOfBoilerplate | script.js:180-200 | whichever container is chosen, no boilerplate survives in the content |
| ArticleReader.ParseArticle | script.js:85-99 | each field of the article is its own cascade; the title is non-empty and trimmed, the author trimmed, the content free of boilerplate |
| ArticleReader.ExtractionIsDeterministic | script.js:85-99 | two extractions of one document agree on every field |

## Left out

- The network fetch through the proxy and the JSON decoding (script.js:71-83): asynchronous I/O.
- `DOMParser` (script.js:79-80): the document is given as a tree. Tag names and attribute names are taken to be lower-cased, as an HTML parser leaves them, so the look-ups of `class`, `rel`, `name`, `content`, `datetime` and `property` are exact map-key matches. Comments and other node kinds are not modelled.
- `innerHTML` serialisation: the content is the sequence of nodes that would be serialised, and the empty string returned when there is no `body` is the empty sequence.
- `new Date(...)` and `toLocaleDateString` (script.js:162-168): they depend on the host and the locale, so they are the parameters `parse` (`None` for an invalid date) and `format`. The `try`/`catch` (script.js:161-172) adds nothing beyond the skip on `None`.
- URL validation with the `URL` constructor (script.js:62-69), and every part of the user interface and browser state (script.js:1-60, 260-305).
- The CSS selector engine beyond the forms listed above. Class tokens, and the values of attributes outside the HTML list of case-insensitive attributes, are compared case-sensitively, as in a document in no-quirks mode; values of listed attributes such as `rel` are compared ignoring ASCII case.
- Node identity and the in-place DOM: the tree is a value. `cloneNode(true)` is the value itself, each `el.remove()` loop over a `querySelectorAll` result is the recursive `Pruning.RemoveMatching`, and the `appendChild` of a copied paragraph is the append in `ArticleReader.AppendEach`. So the claim that the source container is never changed holds by construction, with no contract of its own.
- Utf16Length: characters are Unicode scalar values, so a character above U+FFFF counts as the two code units of its surrogate pair. The model does not represent lone surrogates.
- ParseArticle: the `url` parameter is accepted and not consulted, as in the source.
