/** The fragment of CSS selectors the extractor uses: a type selector, `.class`, `[attr]`,
    `[attr="v"]`, `[attr*="v"]`, their compounds, and one descendant combinator; together with
    `querySelector` (first match in document order) and `querySelectorAll` (all matches). */
module Selectors {
  import opened Wrappers
  import opened JsString
  import opened Dom
  import opened Filtering

  datatype Condition =
    | ClassToken(name: string)                   // .name
    | HasAttr(attr: string)                      // [attr]
    | AttrEquals(attr: string, value: string)    // [attr="value"]
    | AttrContains(attr: string, value: string)  // [attr*="value"]

  /** A compound selector: an optional type selector and conditions that must all hold. */
  datatype Compound = Compound(tag: Option<string>, conditions: seq<Condition>)

  datatype Selector =
    | Simple(subject: Compound)
    | Descendant(ancestor: Compound, subject: Compound)   // "ancestor subject"

  /** The ASCII white space that separates the tokens of a `class` attribute. */
  predicate IsAsciiWhiteSpace(c: char) {
    c == '\t' || c == '\n' || c == '\U{000C}' || c == '\r' || c == ' '
  }

  /** `name` is one of the white-space separated tokens of `classes`. */
  predicate ClassTokenAt(classes: string, name: string, i: int) {
    && OccursAt(name, classes, i)
    && (i == 0 || IsAsciiWhiteSpace(classes[i - 1]))
    && (i + |name| == |classes| || IsAsciiWhiteSpace(classes[i + |name|]))
  }

  predicate HasClassToken(classes: string, name: string) {
    name != "" && exists i | 0 <= i <= |classes| - |name| :: ClassTokenAt(classes, name, i)
  }

  /** The attributes whose values HTML compares in attribute selectors without regard to ASCII
      case (section 4.16.2 of the HTML Living Standard, "Case-sensitivity of selectors"). */
  const CaseInsensitiveAttributes: seq<string> := [
    "accept", "accept-charset", "align", "alink", "axis", "bgcolor", "charset", "checked",
    "clear", "codetype", "color", "compact", "declare", "defer", "dir", "direction", "disabled",
    "enctype", "face", "frame", "hreflang", "http-equiv", "lang", "language", "link", "media",
    "method", "multiple", "nohref", "noresize", "noshade", "nowrap", "readonly", "rel", "rev",
    "rules", "scope", "scrolling", "selected", "shape", "target", "text", "type", "valign",
    "valuetype", "vlink"
  ]

  predicate Listed(a: string, names: seq<string>)
    decreases |names|
  {
    names != [] && (names[0] == a || Listed(a, names[1..]))
  }

  lemma {:induction false} ListedIff(a: string, names: seq<string>)
    ensures Listed(a, names) <==> exists i :: 0 <= i < |names| && names[i] == a
  {
    if names != [] {
      ListedIff(a, names[1..]);
      if Listed(a, names[1..]) {
        var i :| 0 <= i < |names[1..]| && names[1..][i] == a;
        assert names[i + 1] == a;
      }
      if exists i :: 0 <= i < |names| && names[i] == a {
        var i :| 0 <= i < |names| && names[i] == a;
        if i > 0 { assert names[1..][i - 1] == a; }
      }
    }
  }

  /** The form in which an attribute's value, and a selector's value for it, are compared. */
  function Compared(a: string, value: string): string {
    if Listed(a, CaseInsensitiveAttributes) then Lowered(value) else value
  }

  predicate Holds(attrs: map<string, string>, cond: Condition) {
    match cond
    case ClassToken(name) => "class" in attrs && HasClassToken(attrs["class"], name)
    case HasAttr(a) => a in attrs
    case AttrEquals(a, v) => a in attrs && Compared(a, attrs[a]) == Compared(a, v)
    // [a*=""] represents no element
    case AttrContains(a, v) => a in attrs && v != "" && IsSubstring(Compared(a, v), Compared(a, attrs[a]))
  }

  lemma RelIsListed()
    ensures Listed("rel", CaseInsensitiveAttributes)
  {
    var names := CaseInsensitiveAttributes;
    assert names[33] == "rel";
    ListedIff("rel", names);
  }

  /** `[rel="author"]` matches whatever the case of the letters in the element's `rel` value. */
  lemma RelIgnoresCase(attrs: map<string, string>, value: string)
    ensures Holds(attrs["rel" := value], AttrEquals("rel", "author"))
        <==> Holds(attrs["rel" := Lowered(value)], AttrEquals("rel", "author"))
    ensures Holds(attrs["rel" := value], AttrEquals("rel", "author")) <==> Lowered(value) == "author"
  {
    RelIsListed();
    assert Compared("rel", value) == Lowered(value);
    LoweredIdempotent(value);
    assert Lowered("author") == "author";
  }

  /** An element matches a compound selector on its own tag and attributes only. */
  predicate MatchesCompound(n: Node, c: Compound) {
    && n.Element?
    && (c.tag.None? || n.tag == c.tag.value)
    && forall k :: 0 <= k < |c.conditions| ==> Holds(n.attrs, c.conditions[k])
  }

  predicate Matches(h: Hit, sel: Selector) {
    match sel
    case Simple(c) => MatchesCompound(h.node, c)
    case Descendant(a, c) =>
      MatchesCompound(h.node, c) && exists k | 0 <= k < |h.ancestors| :: MatchesCompound(h.ancestors[k], a)
  }

  /** The first traversed element that matches `sel`. */
  function FirstMatch(hs: seq<Hit>, sel: Selector): (r: Option<Node>)
    ensures r.None? <==> forall i :: 0 <= i < |hs| ==> !Matches(hs[i], sel)
    ensures r.Some? ==>
              exists i :: 0 <= i < |hs| && Matches(hs[i], sel) && hs[i].node == r.value &&
                          forall j :: 0 <= j < i ==> !Matches(hs[j], sel)
  {
    if hs == [] then None
    else if Matches(hs[0], sel) then Some(hs[0].node)
    else
      var r := FirstMatch(hs[1..], sel);
      assert forall i :: 1 <= i < |hs| ==> hs[i] == hs[1..][i - 1];
      r
  }

  /** No element in `hs` has the tag `t`. */
  predicate NoneTagged(hs: seq<Hit>, t: string) {
    forall i :: 0 <= i < |hs| ==> hs[i].node.Element? ==> hs[i].node.tag != t
  }

  /** A selector whose subject names tag `t` finds nothing among elements with other tags. */
  lemma UnmatchedTag(hs: seq<Hit>, sel: Selector, t: string)
    requires sel.subject.tag == Some(t)
    requires NoneTagged(hs, t)
    ensures FirstMatch(hs, sel).None?
  {
    forall i | 0 <= i < |hs|
      ensures !Matches(hs[i], sel)
    {
      assert Matches(hs[i], sel) ==> MatchesCompound(hs[i].node, sel.subject);
    }
  }

  /** The elements of `hs` that match `sel`, in order. */
  function AllMatches(hs: seq<Hit>, sel: Selector): (r: seq<Node>)
    ensures forall x :: x in r ==> exists h :: h in hs && h.node == x && Matches(h, sel)
  {
    if hs == [] then []
    else (if Matches(hs[0], sel) then [hs[0].node] else []) + AllMatches(hs[1..], sel)
  }

  /** The test `querySelectorAll` applies to each traversed element. */
  function MatchesOf(sel: Selector): Hit -> bool {
    h => Matches(h, sel)
  }

  /** `querySelectorAll` returns every traversed element that matches and nothing else, in
      traversal order: the node of each hit the filter by `sel` keeps. */
  lemma {:induction false} AllMatchesAreEveryMatch(hs: seq<Hit>, sel: Selector)
    ensures var f := Filter(hs, MatchesOf(sel));
            && |AllMatches(hs, sel)| == |f|
            && forall k :: 0 <= k < |f| ==> AllMatches(hs, sel)[k] == f[k].node
  {
    if hs != [] {
      AllMatchesAreEveryMatch(hs[1..], sel);
      FilterCons(hs, MatchesOf(sel));
      var keep := Matches(hs[0], sel);
      assert MatchesOf(sel)(hs[0]) == keep;
      NodesOfPrefixed(hs[0], keep, AllMatches(hs[1..], sel), Filter(hs[1..], MatchesOf(sel)));
    }
  }

  /** Prefixing a hit, or nothing, keeps a list of nodes in step with a list of hits. */
  lemma NodesOfPrefixed(h: Hit, keep: bool, ns: seq<Node>, f: seq<Hit>)
    requires |ns| == |f| && forall k :: 0 <= k < |f| ==> ns[k] == f[k].node
    ensures var ns', f' := (if keep then [h.node] else []) + ns, (if keep then [h] else []) + f;
            |ns'| == |f'| && forall k :: 0 <= k < |f'| ==> ns'[k] == f'[k].node
  {
  }

  /** `document.querySelector(sel)`, the document being its root element. */
  function QueryFirst(doc: Node, sel: Selector): (r: Option<Node>)
    ensures r.Some? ==> r.value.Element?
  {
    HitsAreElements([doc], []);
    FirstMatch(Hits([doc], []), sel)
  }

  /** `scope.querySelectorAll(sel)`: the descendants of `scope` (never `scope` itself) that match,
      in document order. `scope` is a detached copy here, so its own chain of ancestors ends with it. */
  function QueryAll(scope: Node, sel: Selector): seq<Node> {
    AllMatches(Hits(ChildrenOf(scope), [scope]), sel)
  }
}
