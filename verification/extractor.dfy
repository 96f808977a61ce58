/** `clean_html`: either hands the document to a user-supplied CSS selector,
    or removes boilerplate (scripts, navigation, chrome, comments) and then
    picks the main-content subtree by a fixed priority list.

    Three things the source delegates to libraries are parameters here:
    - `selectOne`: BeautifulSoup's `select_one`, the CSS selector engine;
    - `navClass`: the class-list test of the navigation-class removal loop;
    - `contentClass`: the class-list test of the content-`div` lookup.
    The two class tests are left abstract because what BeautifulSoup passes
    to them (the whole class list or each class string on its own) is
    decided by the library, not by this code. */
module Extractor {
  import opened Wrappers
  import opened Dom

  // ---- the clean-up passes ------------------------------------------------

  const MediaTags: set<string> := {"script", "style", "noscript", "iframe", "svg"}
  const NavTags: set<string> := {"nav", "aside"}
  const NavRoles: set<string> := {"navigation", "complementary", "menu"}
  const ChromeTags: set<string> := {"header", "footer"}

  function HasTagIn(tags: set<string>): Node -> bool {
    (n: Node) => n.Element? && n.tag in tags
  }

  function HasRoleIn(roles: set<string>): Node -> bool {
    (n: Node) => n.Element? && n.role.Some? && n.role.value in roles
  }

  function HasClassHit(classHit: seq<string> -> bool): Node -> bool {
    (n: Node) => n.Element? && classHit(n.classes)
  }

  const IsCommentNode: Node -> bool := (n: Node) => n.Comment?

  /** What the clean-up removes, stated once: an element with one of the
      nine removed tags, with a navigation role, or with a class-pattern
      hit, and every comment. */
  predicate IsBoilerplate(navClass: seq<string> -> bool, n: Node) {
    || (n.Element? && (n.tag in MediaTags || n.tag in NavTags || n.tag in ChromeTags))
    || (n.Element? && n.role.Some? && n.role.value in NavRoles)
    || (n.Element? && navClass(n.classes))
    || n.Comment?
  }

  function Boilerplate(navClass: seq<string> -> bool): Node -> bool {
    n => IsBoilerplate(navClass, n)
  }

  /** The six removal loops of `clean_html`, in their source order. */
  function CleanupPasses(navClass: seq<string> -> bool): seq<Node -> bool> {
    [ HasTagIn(MediaTags), HasTagIn(NavTags), HasClassHit(navClass),
      HasRoleIn(NavRoles), HasTagIn(ChromeTags), IsCommentNode ]
  }

  lemma CleanupPassesSelectBoilerplate(navClass: seq<string> -> bool)
    ensures forall n :: SelectedByAny(CleanupPasses(navClass), n) == IsBoilerplate(navClass, n)
  {
    var ps := CleanupPasses(navClass);
    forall n ensures SelectedByAny(ps, n) == IsBoilerplate(navClass, n) {
      var s1 := ps[1..];
      var s2 := s1[1..];
      var s3 := s2[1..];
      var s4 := s3[1..];
      var s5 := s4[1..];
      assert s5 == [IsCommentNode] && s5[1..] == [];
      assert SelectedByAny(s5, n) == n.Comment?;
      assert SelectedByAny(s4, n) == (HasTagIn(ChromeTags)(n) || n.Comment?);
      assert SelectedByAny(s3, n) == (HasRoleIn(NavRoles)(n) || SelectedByAny(s4, n));
      assert SelectedByAny(s2, n) == (HasClassHit(navClass)(n) || SelectedByAny(s3, n));
      assert SelectedByAny(s1, n) == (HasTagIn(NavTags)(n) || SelectedByAny(s2, n));
      assert SelectedByAny(ps, n) == (HasTagIn(MediaTags)(n) || SelectedByAny(s1, n));
    }
  }

  /** The clean-up: the six passes amount to one pass removing every
      boilerplate node with its subtree, so nothing the passes target
      survives anywhere in the result. */
  function Clean(doc: seq<Node>, navClass: seq<string> -> bool): (r: seq<Node>)
    ensures r == Prune(doc, Boilerplate(navClass))
    ensures NoneMatch(PreOrder(r), Boilerplate(navClass))
  {
    var passes := CleanupPasses(navClass);
    PruneEachIsOnePass(doc, passes);
    CleanupPassesSelectBoilerplate(navClass);
    PruneSameTest(doc, AnyPass(passes), Boilerplate(navClass));
    PruneEach(doc, passes)
  }

  // ---- choosing the main content ------------------------------------------

  /** The content-`div` test of `clean_html`'s main-content lookup. */
  function ContentDiv(contentClass: seq<string> -> bool): Node -> bool {
    (n: Node) => n.Element? && n.tag == "div" && contentClass(n.classes)
  }

  /** `clean_html`'s main-content lookup, in priority order: `main`, `article`, `role="main"`,
      a content-class `div`, `body`. */
  function MainCandidates(contentClass: seq<string> -> bool): seq<Node -> bool> {
    [HasTagIn({"main"}), HasTagIn({"article"}), HasRoleIn({"main"}), ContentDiv(contentClass), HasTagIn({"body"})]
  }

  /** The first node in document order of the first candidate test that has
      any match at all. */
  function FirstCandidate(doc: seq<Node>, candidates: seq<Node -> bool>): (r: Option<Node>)
    ensures r.None? <==> forall k :: 0 <= k < |candidates| ==> !AnyMatch(PreOrder(doc), candidates[k])
    ensures r.Some? ==>
              exists k :: 0 <= k < |candidates|
                          && (forall k' :: 0 <= k' < k ==> !AnyMatch(PreOrder(doc), candidates[k']))
                          && IsFirstOf(PreOrder(doc), candidates[k], r.value)
  {
    if |candidates| == 0 then None
    else
      var found := FindFirst(doc, candidates[0]);
      if found.Some? then
        assert IsFirstOf(PreOrder(doc), candidates[0], found.value);
        found
      else
        var r := FirstCandidate(doc, candidates[1..]);
        FirstCandidateShift(doc, candidates, r);
        r
  }

  /** When the first candidate has no match, the answer for the remaining
      candidates is the answer for all of them. */
  lemma FirstCandidateShift(doc: seq<Node>, candidates: seq<Node -> bool>, r: Option<Node>)
    requires |candidates| > 0 && !AnyMatch(PreOrder(doc), candidates[0])
    requires r.None? <==> forall k :: 0 <= k < |candidates| - 1 ==> !AnyMatch(PreOrder(doc), candidates[1..][k])
    requires r.Some? ==>
               exists k :: 0 <= k < |candidates| - 1
                           && (forall k' :: 0 <= k' < k ==> !AnyMatch(PreOrder(doc), candidates[1..][k']))
                           && IsFirstOf(PreOrder(doc), candidates[1..][k], r.value)
    ensures r.None? <==> forall k :: 0 <= k < |candidates| ==> !AnyMatch(PreOrder(doc), candidates[k])
    ensures r.Some? ==>
              exists k :: 0 <= k < |candidates|
                          && (forall k' :: 0 <= k' < k ==> !AnyMatch(PreOrder(doc), candidates[k']))
                          && IsFirstOf(PreOrder(doc), candidates[k], r.value)
  {
    var rest := candidates[1..];
    assert forall k :: 1 <= k < |candidates| ==> candidates[k] == rest[k - 1];
    if r.None? {
      forall k | 0 <= k < |candidates| ensures !AnyMatch(PreOrder(doc), candidates[k]) {
        if k > 0 {
          assert candidates[k] == rest[k - 1];
        }
      }
    } else {
      var k :| 0 <= k < |rest|
               && (forall k' :: 0 <= k' < k ==> !AnyMatch(PreOrder(doc), rest[k']))
               && IsFirstOf(PreOrder(doc), rest[k], r.value);
      assert IsFirstOf(PreOrder(doc), candidates[k + 1], r.value);
      forall k' | 0 <= k' < k + 1 ensures !AnyMatch(PreOrder(doc), candidates[k']) {
        if k' > 0 {
          assert candidates[k'] == rest[k' - 1];
        }
      }
    }
  }

  /** What `clean_html` hands on: a subtree, or (when no candidate exists)
      the whole cleaned document. */
  datatype Extract = Subtree(node: Node) | WholeDocument(forest: seq<Node>)

  /** Every node of the extract. */
  function ExtractNodes(e: Extract): seq<Node> {
    match e
    case Subtree(n) => PreOrder([n])
    case WholeDocument(f) => PreOrder(f)
  }

  /** The priority chain of `clean_html`: the whole document exactly when
      no candidate occurs; otherwise the earliest node, in document order,
      of the first candidate in the list that occurs at all. */
  function SelectMainContent(doc: seq<Node>, contentClass: seq<string> -> bool): (r: Extract)
    ensures r.WholeDocument? <==>
              forall k :: 0 <= k < |MainCandidates(contentClass)| ==> !AnyMatch(PreOrder(doc), MainCandidates(contentClass)[k])
    ensures r.WholeDocument? ==> r.forest == doc
    ensures r.Subtree? ==>
              exists k :: 0 <= k < |MainCandidates(contentClass)|
                          && (forall k' :: 0 <= k' < k ==> !AnyMatch(PreOrder(doc), MainCandidates(contentClass)[k']))
                          && IsFirstOf(PreOrder(doc), MainCandidates(contentClass)[k], r.node)
    ensures r.Subtree? ==> r.node in PreOrder(doc)
  {
    match FirstCandidate(doc, MainCandidates(contentClass))
    case Some(n) => Subtree(n)
    case None => WholeDocument(doc)
  }

  /** The priority chain: a `main` element anywhere wins, and it is the
      first one in document order. */
  lemma MainWins(doc: seq<Node>, contentClass: seq<string> -> bool)
    requires AnyMatch(PreOrder(doc), HasTagIn({"main"}))
    ensures SelectMainContent(doc, contentClass).Subtree?
    ensures IsFirstOf(PreOrder(doc), HasTagIn({"main"}), SelectMainContent(doc, contentClass).node)
  {
    var cands := MainCandidates(contentClass);
    assert cands[0] == HasTagIn({"main"});
    var found := FirstCandidate(doc, cands);
    var k :| 0 <= k < |cands|
             && (forall k' :: 0 <= k' < k ==> !AnyMatch(PreOrder(doc), cands[k']))
             && IsFirstOf(PreOrder(doc), cands[k], found.value);
    assert k == 0;
  }

  /** Without a `main`, the first `article` is taken. */
  lemma ArticleNext(doc: seq<Node>, contentClass: seq<string> -> bool)
    requires !AnyMatch(PreOrder(doc), HasTagIn({"main"}))
    requires AnyMatch(PreOrder(doc), HasTagIn({"article"}))
    ensures SelectMainContent(doc, contentClass).Subtree?
    ensures IsFirstOf(PreOrder(doc), HasTagIn({"article"}), SelectMainContent(doc, contentClass).node)
  {
    var cands := MainCandidates(contentClass);
    assert cands[0] == HasTagIn({"main"});
    assert cands[1] == HasTagIn({"article"});
    var found := FirstCandidate(doc, cands);
    var k :| 0 <= k < |cands|
             && (forall k' :: 0 <= k' < k ==> !AnyMatch(PreOrder(doc), cands[k']))
             && IsFirstOf(PreOrder(doc), cands[k], found.value);
    assert k != 0;
    assert k == 1;
  }

  /** The whole document is handed on exactly when none of the five
      candidates occurs in it. */
  lemma WholeDocumentOnlyWithoutCandidates(doc: seq<Node>, contentClass: seq<string> -> bool)
    ensures SelectMainContent(doc, contentClass).WholeDocument? <==>
              && !AnyMatch(PreOrder(doc), HasTagIn({"main"}))
              && !AnyMatch(PreOrder(doc), HasTagIn({"article"}))
              && !AnyMatch(PreOrder(doc), HasRoleIn({"main"}))
              && !AnyMatch(PreOrder(doc), ContentDiv(contentClass))
              && !AnyMatch(PreOrder(doc), HasTagIn({"body"}))
  {
    var cands := MainCandidates(contentClass);
    assert cands[0] == HasTagIn({"main"});
    assert cands[1] == HasTagIn({"article"});
    assert cands[2] == HasRoleIn({"main"});
    assert cands[3] == ContentDiv(contentClass);
    assert cands[4] == HasTagIn({"body"});
  }

  // ---- clean_html ---------------------------------------------------------

  /** The `ValueError` `clean_html` raises for a selector that matches nothing. */
  datatype ExtractError = SelectorNotFound(selector: string)

  /** `if selector:` — an absent or empty selector means "use the heuristics". */
  predicate HasSelector(selector: Option<string>) {
    selector.Some? && selector.value != ""
  }

  /** `clean_html`. With a selector, the document is not cleaned: the
      selector engine sees it as parsed, and a selector matching nothing is
      an error. Without one, extraction never fails and its result holds no
      boilerplate node. */
  function CleanHtml(
    doc: seq<Node>,
    selector: Option<string>,
    selectOne: (string, seq<Node>) -> Option<Node>,
    navClass: seq<string> -> bool,
    contentClass: seq<string> -> bool
  ): (r: Result<Extract, ExtractError>)
    ensures r.Failure? <==> HasSelector(selector) && selectOne(selector.value, doc).None?
    ensures r.Failure? ==> r.error == SelectorNotFound(selector.value)
    ensures HasSelector(selector) && r.Success? ==> r.value == Subtree(selectOne(selector.value, doc).value)
    ensures !HasSelector(selector) ==>
              && r.Success?
              && r.value == SelectMainContent(Clean(doc, navClass), contentClass)
              && NoneMatch(ExtractNodes(r.value), Boilerplate(navClass))
  {
    if HasSelector(selector) then
      match selectOne(selector.value, doc)
      case Some(n) => Success(Subtree(n))
      case None => Failure(SelectorNotFound(selector.value))
    else
      var e := SelectMainContent(Clean(doc, navClass), contentClass);
      ExtractOfCleanIsClean(doc, navClass, contentClass);
      Success(e)
  }

  lemma ExtractOfCleanIsClean(doc: seq<Node>, navClass: seq<string> -> bool, contentClass: seq<string> -> bool)
    ensures NoneMatch(ExtractNodes(SelectMainContent(Clean(doc, navClass), contentClass)), Boilerplate(navClass))
  {
    var cleaned := Clean(doc, navClass);
    var e := SelectMainContent(cleaned, contentClass);
    if e.Subtree? {
      SubtreeWithinDocument(cleaned, e.node);
      NoneMatchSubset(PreOrder([e.node]), PreOrder(cleaned), Boilerplate(navClass));
    }
  }

  lemma NoneMatchSubset(xs: seq<Node>, ys: seq<Node>, p: Node -> bool)
    requires forall y :: y in xs ==> y in ys
    requires NoneMatch(ys, p)
    ensures NoneMatch(xs, p)
  {
    forall i | 0 <= i < |xs| ensures !p(Shallow(xs[i])) {
      assert xs[i] in ys;
    }
  }

  /** Without a selector no script, style or comment reaches the converter. */
  lemma NoScriptsStylesOrComments(
    doc: seq<Node>,
    selectOne: (string, seq<Node>) -> Option<Node>,
    navClass: seq<string> -> bool,
    contentClass: seq<string> -> bool,
    n: Node
  )
    requires n in ExtractNodes(CleanHtml(doc, None, selectOne, navClass, contentClass).value)
    ensures !n.Comment?
    ensures n.Element? ==> n.tag != "script" && n.tag != "style"
  {
    var nodes := ExtractNodes(CleanHtml(doc, None, selectOne, navClass, contentClass).value);
    var i :| 0 <= i < |nodes| && nodes[i] == n;
    assert !IsBoilerplate(navClass, Shallow(n));
  }
}
