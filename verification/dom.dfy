/** An abstract parsed document: the part of BeautifulSoup's tree that
    `clean_html` looks at. A document is its forest of top-level nodes;
    "document order" is pre-order. */
module Dom {
  import opened Wrappers

  datatype Node =
    | Element(tag: string, classes: seq<string>, role: Option<string>, children: seq<Node>)
    | Text(text: string)
    | Comment(text: string)

  function Children(n: Node): seq<Node> {
    if n.Element? then n.children else []
  }

  /** The node with its children dropped: all that a node-local test sees. */
  function Shallow(n: Node): Node {
    if n.Element? then n.(children := []) else n
  }

  /** Every node of the forest in document order (a node before its
      children, the children before the node's next sibling). */
  function PreOrder(forest: seq<Node>): seq<Node>
    decreases forest
  {
    if |forest| == 0 then []
    else if forest[0].Element? then [forest[0]] + PreOrder(forest[0].children) + PreOrder(forest[1..])
    else [forest[0]] + PreOrder(forest[1..])
  }

  // ---- "first match in document order" -------------------------------------

  predicate AnyMatch(xs: seq<Node>, p: Node -> bool) {
    exists i :: 0 <= i < |xs| && p(xs[i])
  }

  /** `xs[i]` is the earliest element of `xs` that satisfies `p`. */
  predicate IsFirstMatch(xs: seq<Node>, p: Node -> bool, i: int) {
    0 <= i < |xs| && p(xs[i]) && forall j :: 0 <= j < i ==> !p(xs[j])
  }

  /** `n` is the earliest element of `xs` that satisfies `p`. */
  predicate IsFirstOf(xs: seq<Node>, p: Node -> bool, n: Node) {
    exists i :: 0 <= i < |xs| && IsFirstMatch(xs, p, i) && xs[i] == n
  }

  lemma FirstMatchConcat(a: seq<Node>, b: seq<Node>, p: Node -> bool)
    ensures AnyMatch(a + b, p) <==> AnyMatch(a, p) || AnyMatch(b, p)
    ensures forall i :: IsFirstMatch(a, p, i) ==> IsFirstMatch(a + b, p, i)
    ensures !AnyMatch(a, p) ==> forall j :: IsFirstMatch(b, p, j) ==> IsFirstMatch(a + b, p, |a| + j)
  {
    if AnyMatch(a + b, p) {
      var i :| 0 <= i < |a + b| && p((a + b)[i]);
      if i >= |a| {
        assert b[i - |a|] == (a + b)[i];
      }
    }
    if AnyMatch(a, p) {
      var i :| 0 <= i < |a| && p(a[i]);
      assert (a + b)[i] == a[i];
    }
    if AnyMatch(b, p) {
      var i :| 0 <= i < |b| && p(b[i]);
      assert (a + b)[|a| + i] == b[i];
    }
    if !AnyMatch(a, p) {
      forall j | IsFirstMatch(b, p, j)
        ensures IsFirstMatch(a + b, p, |a| + j)
      {
        forall k | 0 <= k < |a| + j
          ensures !p((a + b)[k])
        {
          if k >= |a| {
            assert (a + b)[k] == b[k - |a|];
          }
        }
      }
    }
  }

  /** BeautifulSoup's `find`: a depth-first search that returns the first
      node in document order satisfying `p`, or nothing. */
  function FindFirst(forest: seq<Node>, p: Node -> bool): (r: Option<Node>)
    ensures r.None? <==> !AnyMatch(PreOrder(forest), p)
    ensures r.Some? ==> IsFirstOf(PreOrder(forest), p, r.value)
    decreases forest
  {
    if |forest| == 0 then None
    else
      var head, inner, rest := [forest[0]], PreOrder(Children(forest[0])), PreOrder(forest[1..]);
      assert PreOrder(forest) == head + inner + rest;
      FirstMatchConcat(head, inner, p);
      FirstMatchConcat(head + inner, rest, p);
      if p(forest[0]) then
        assert IsFirstMatch(PreOrder(forest), p, 0);
        Some(forest[0])
      else
        assert !AnyMatch(head, p);
        var found := if forest[0].Element? then FindFirst(forest[0].children, p) else None;
        match found
        case Some(n) =>
          var i :| IsFirstMatch(inner, p, i) && inner[i] == n;
          assert IsFirstMatch(head + inner, p, 1 + i);
          assert (head + inner + rest)[1 + i] == n;
          Some(n)
        case None =>
          var r := FindFirst(forest[1..], p);
          if r.Some? then
            var j :| IsFirstMatch(rest, p, j) && rest[j] == r.value;
            assert IsFirstMatch(head + inner + rest, p, |head + inner| + j);
            r
          else r
  }

  // ---- subtree removal ---------------------------------------------------

  /** BeautifulSoup's `decompose`/`extract` over every node that `p`
      selects: each selected node goes together with its whole subtree,
      every other node stays in place with its own children pruned. `p` is
      applied to the node with its children dropped, so it is node-local by
      construction. */
  function Prune(forest: seq<Node>, p: Node -> bool): (r: seq<Node>)
    ensures NoneMatch(PreOrder(r), p)
    ensures |r| <= |forest|
    decreases forest
  {
    if |forest| == 0 then []
    else
      var rest := Prune(forest[1..], p);
      if p(Shallow(forest[0])) then rest
      else
        var kept := PruneNode(forest[0], p);
        assert Shallow(kept) == Shallow(forest[0]);
        assert PreOrder([kept] + rest) == [kept] + PreOrder(Children(kept)) + PreOrder(rest) by {
          assert ([kept] + rest)[1..] == rest;
        }
        [kept] + rest
  }

  function PruneNode(n: Node, p: Node -> bool): Node
    decreases n, 0
  {
    match n
    case Element(tag, classes, role, children) => Element(tag, classes, role, Prune(children, p))
    case _ => n
  }

  /** No node of the list is selected by `p`. */
  predicate NoneMatch(xs: seq<Node>, p: Node -> bool) {
    forall i :: 0 <= i < |xs| ==> !p(Shallow(xs[i]))
  }

  /** At the top level, pruning keeps exactly the nodes `p` does not select,
      in their order and with their own attributes. */
  lemma {:induction false} PruneKeepsUnselected(forest: seq<Node>, p: Node -> bool)
    ensures ShallowAll(Prune(forest, p)) == ShallowUnselected(forest, p)
    decreases forest
  {
    if |forest| > 0 {
      PruneKeepsUnselected(forest[1..], p);
      if !p(Shallow(forest[0])) {
        var r := Prune(forest, p);
        assert r[1..] == Prune(forest[1..], p);
      }
    }
  }

  function ShallowAll(forest: seq<Node>): seq<Node> {
    if |forest| == 0 then [] else [Shallow(forest[0])] + ShallowAll(forest[1..])
  }

  function ShallowUnselected(forest: seq<Node>, p: Node -> bool): seq<Node> {
    if |forest| == 0 then []
    else if p(Shallow(forest[0])) then ShallowUnselected(forest[1..], p)
    else [Shallow(forest[0])] + ShallowUnselected(forest[1..], p)
  }

  // ---- removal at every depth ---------------------------------------------

  /** A node in document order together with its depth (0 for the top
      level), its children dropped. */
  datatype Entry = Entry(depth: nat, node: Node)

  /** The document as a flat list: pre-order, each node shallow and tagged
      with its depth. Unlike `PreOrder`, the outline still records the tree
      shape (`OutlineDeterminesForest`). */
  function Outline(forest: seq<Node>, d: nat): seq<Entry>
    decreases forest
  {
    if |forest| == 0 then []
    else if forest[0].Element? then
      [Entry(d, Shallow(forest[0]))] + Outline(forest[0].children, d + 1) + Outline(forest[1..], d)
    else [Entry(d, Shallow(forest[0]))] + Outline(forest[1..], d)
  }

  /** Reference definition of "remove each selected node with its subtree",
      as one left-to-right scan of the outline: an entry is dropped when it
      lies inside a subtree cut earlier (it is deeper than the cut node and
      no shallower entry has come since), or when `p` selects it, which
      opens a new cut; every other entry is kept. So an entry survives
      exactly when no node on its path from the root is selected. */
  function SkipSelected(xs: seq<Entry>, p: Node -> bool, cut: Option<nat>): seq<Entry>
    decreases |xs|
  {
    if |xs| == 0 then []
    else if cut.Some? && xs[0].depth > cut.value then SkipSelected(xs[1..], p, cut)
    else if p(xs[0].node) then SkipSelected(xs[1..], p, Some(xs[0].depth))
    else [xs[0]] + SkipSelected(xs[1..], p, None)
  }

  predicate AllDeeper(xs: seq<Entry>, c: nat) {
    forall i :: 0 <= i < |xs| ==> xs[i].depth > c
  }

  /** `ys` is empty or starts at depth `d` or shallower. */
  predicate HeadAtMost(ys: seq<Entry>, d: nat) {
    |ys| == 0 || ys[0].depth <= d
  }

  lemma {:induction false} OutlineDepths(forest: seq<Node>, d: nat)
    ensures AllDeeper(Outline(forest, d + 1), d)
    ensures HeadAtMost(Outline(forest, d), d)
    decreases forest
  {
    if |forest| > 0 {
      var inner := Outline(Children(forest[0]), d + 2);
      if forest[0].Element? {
        OutlineDepths(forest[0].children, d + 1);
      }
      OutlineDepths(forest[1..], d);
      OutlineCons(forest, d + 1);
      AllDeeperConcat(inner, Outline(forest[1..], d + 1), d);
      AllDeeperConcat([Entry(d + 1, Shallow(forest[0]))], inner + Outline(forest[1..], d + 1), d);
    }
  }

  lemma AllDeeperConcat(a: seq<Entry>, b: seq<Entry>, c: nat)
    requires AllDeeper(a, c) && AllDeeper(b, c)
    ensures AllDeeper(a + b, c)
  {
    forall i | 0 <= i < |a + b| ensures (a + b)[i].depth > c {
      if i >= |a| {
        assert (a + b)[i] == b[i - |a|];
      }
    }
  }

  /** Inside a cut, entries deeper than the cut node are skipped. */
  lemma {:induction false} SkipInsideCut(zs: seq<Entry>, ws: seq<Entry>, p: Node -> bool, c: nat)
    requires AllDeeper(zs, c)
    ensures SkipSelected(zs + ws, p, Some(c)) == SkipSelected(ws, p, Some(c))
    decreases |zs|
  {
    if |zs| > 0 {
      assert (zs + ws)[0] == zs[0];
      assert (zs + ws)[1..] == zs[1..] + ws;
      SkipInsideCut(zs[1..], ws, p, c);
    } else {
      assert zs + ws == ws;
    }
  }

  /** An entry no deeper than the cut node ends the cut. */
  lemma SkipCutEnds(ws: seq<Entry>, p: Node -> bool, c: nat)
    requires HeadAtMost(ws, c)
    ensures SkipSelected(ws, p, Some(c)) == SkipSelected(ws, p, None)
  {}

  /** The outline of a non-empty forest: its first node, that node's
      subtree one level deeper, then the rest. */
  lemma OutlineCons(forest: seq<Node>, d: nat)
    requires |forest| > 0
    ensures Outline(forest, d) ==
      [Entry(d, Shallow(forest[0]))] + (Outline(Children(forest[0]), d + 1) + Outline(forest[1..], d))
  {
    if !forest[0].Element? {
      assert Outline(Children(forest[0]), d + 1) == [];
    }
  }

  /** A selected head is skipped together with its subtree. */
  lemma SkipSelectedHead(e: Entry, inner: seq<Entry>, tail: seq<Entry>, p: Node -> bool)
    requires p(e.node) && AllDeeper(inner, e.depth) && HeadAtMost(tail, e.depth)
    ensures SkipSelected([e] + (inner + tail), p, None) == SkipSelected(tail, p, None)
  {
    assert ([e] + (inner + tail))[1..] == inner + tail;
    SkipInsideCut(inner, tail, p, e.depth);
    SkipCutEnds(tail, p, e.depth);
  }

  /** An unselected head is kept. */
  lemma SkipKeptHead(e: Entry, zs: seq<Entry>, p: Node -> bool)
    requires !p(e.node)
    ensures SkipSelected([e] + zs, p, None) == [e] + SkipSelected(zs, p, None)
  {
    assert ([e] + zs)[1..] == zs;
  }

  /** The top level of `Prune` on a non-empty forest. */
  lemma PruneCons(forest: seq<Node>, p: Node -> bool)
    requires |forest| > 0
    ensures p(Shallow(forest[0])) ==> Prune(forest, p) == Prune(forest[1..], p)
    ensures !p(Shallow(forest[0])) ==>
      var pr := Prune(forest, p);
      && |pr| > 0 && pr[1..] == Prune(forest[1..], p)
      && Shallow(pr[0]) == Shallow(forest[0])
      && Children(pr[0]) == Prune(Children(forest[0]), p)
  {
    if !p(Shallow(forest[0])) {
      var pr := Prune(forest, p);
      assert pr == [PruneNode(forest[0], p)] + Prune(forest[1..], p);
    }
  }

  /** The statement of `SkipOutline`, for one forest. */
  predicate SkipsLikePrune(forest: seq<Node>, d: nat, ys: seq<Entry>, p: Node -> bool) {
    SkipSelected(Outline(forest, d) + ys, p, None) == Outline(Prune(forest, p), d) + SkipSelected(ys, p, None)
  }

  lemma {:induction false} SkipOutline(forest: seq<Node>, d: nat, ys: seq<Entry>, p: Node -> bool)
    requires HeadAtMost(ys, d)
    ensures SkipsLikePrune(forest, d, ys, p)
    decreases forest
  {
    if |forest| == 0 {
      assert Outline(forest, d) + ys == ys;
    } else {
      SkipOutline(forest[1..], d, ys, p);
      if p(Shallow(forest[0])) {
        SkipOutlineSelectedHead(forest, d, ys, p);
      } else {
        var tail := Outline(forest[1..], d) + ys;
        TailHeadAtMost(forest[1..], d, ys, d + 1);
        if forest[0].Element? {
          SkipOutline(forest[0].children, d + 1, tail, p);
        } else {
          SkipOutlineEmpty(d + 1, tail, p);
        }
        SkipOutlineKeptHead(forest, d, ys, p);
      }
    }
  }

  lemma TailHeadAtMost(rest: seq<Node>, d: nat, ys: seq<Entry>, c: nat)
    requires HeadAtMost(ys, d) && d <= c
    ensures HeadAtMost(Outline(rest, d) + ys, c)
  {
    OutlineDepths(rest, d);
  }

  lemma SkipOutlineEmpty(d: nat, ys: seq<Entry>, p: Node -> bool)
    ensures SkipsLikePrune([], d, ys, p)
  {
    assert Outline([], d) + ys == ys;
  }

  lemma SkipOutlineSelectedHead(forest: seq<Node>, d: nat, ys: seq<Entry>, p: Node -> bool)
    requires |forest| > 0 && p(Shallow(forest[0])) && HeadAtMost(ys, d)
    requires SkipsLikePrune(forest[1..], d, ys, p)
    ensures SkipsLikePrune(forest, d, ys, p)
  {
    var e, inner, tail := Entry(d, Shallow(forest[0])), Outline(Children(forest[0]), d + 1), Outline(forest[1..], d) + ys;
    OutlineConsAppend(forest, d, ys);
    OutlineDepths(Children(forest[0]), d);
    TailHeadAtMost(forest[1..], d, ys, d);
    SkipSelectedHead(e, inner, tail, p);
    PruneSelectedHead(forest, p);
  }

  /** `OutlineCons` with something appended. */
  lemma OutlineConsAppend(forest: seq<Node>, d: nat, ys: seq<Entry>)
    requires |forest| > 0
    ensures Outline(forest, d) + ys ==
      [Entry(d, Shallow(forest[0]))] + (Outline(Children(forest[0]), d + 1) + (Outline(forest[1..], d) + ys))
  {
    OutlineCons(forest, d);
  }

  lemma PruneSelectedHead(forest: seq<Node>, p: Node -> bool)
    requires |forest| > 0 && p(Shallow(forest[0]))
    ensures Prune(forest, p) == Prune(forest[1..], p)
  {}

  lemma SkipOutlineKeptHead(forest: seq<Node>, d: nat, ys: seq<Entry>, p: Node -> bool)
    requires |forest| > 0 && !p(Shallow(forest[0]))
    requires SkipsLikePrune(forest[1..], d, ys, p)
    requires forest[0].Element? ==> SkipsLikePrune(forest[0].children, d + 1, Outline(forest[1..], d) + ys, p)
    requires !forest[0].Element? ==> SkipsLikePrune([], d + 1, Outline(forest[1..], d) + ys, p)
    ensures SkipsLikePrune(forest, d, ys, p)
  {
    var x := forest[0];
    var e, inner, tail := Entry(d, Shallow(x)), Outline(Children(x), d + 1), Outline(forest[1..], d) + ys;
    OutlineConsAppend(forest, d, ys);
    SkipKeptHead(e, inner + tail, p);
    var a, b, c := Outline(Prune(Children(x), p), d + 1), Outline(Prune(forest[1..], p), d), SkipSelected(ys, p, None);
    assert SkipSelected(inner + tail, p, None) == a + (b + c);
    OutlineOfKeptHead(forest, d, p);
    ConcatRegroup(e, a, b, c);
  }

  /** The outline of a pruned forest whose first node is kept. */
  lemma OutlineOfKeptHead(forest: seq<Node>, d: nat, p: Node -> bool)
    requires |forest| > 0 && !p(Shallow(forest[0]))
    ensures Outline(Prune(forest, p), d) ==
      [Entry(d, Shallow(forest[0]))] + (Outline(Prune(Children(forest[0]), p), d + 1) + Outline(Prune(forest[1..], p), d))
  {
    PruneCons(forest, p);
    OutlineCons(Prune(forest, p), d);
  }

  lemma ConcatRegroup(e: Entry, a: seq<Entry>, b: seq<Entry>, c: seq<Entry>)
    ensures [e] + (a + (b + c)) == ([e] + (a + b)) + c
  {}

  /** Pruning at every depth: the outline of the pruned document is the
      outline of the original with every selected node and everything
      below it skipped, and nothing else changed. With
      `OutlineDeterminesForest` this pins `Prune` down completely: each
      node with no selected node on its path from the root stays, at its
      depth, in document order, with its own attributes. */
  lemma PruneOutline(forest: seq<Node>, p: Node -> bool)
    ensures Outline(Prune(forest, p), 0) == SkipSelected(Outline(forest, 0), p, None)
  {
    SkipOutline(forest, 0, [], p);
    assert SkipsLikePrune(forest, 0, [], p);
    assert Outline(forest, 0) + [] == Outline(forest, 0);
    assert Outline(Prune(forest, p), 0) + [] == Outline(Prune(forest, p), 0);
  }

  /** Where two outlines that each split into a deeper part and a part
      starting shallower meet, they split at the same place. */
  lemma SplitAtDepth(a: seq<Entry>, b: seq<Entry>, a': seq<Entry>, b': seq<Entry>, d: nat)
    requires AllDeeper(a, d) && AllDeeper(a', d) && HeadAtMost(b, d) && HeadAtMost(b', d)
    requires a + b == a' + b'
    ensures a == a' && b == b'
  {
    assert a == (a + b)[..|a|] == (a' + b')[..|a'|] == a';
    assert b == (a + b)[|a|..] == (a' + b')[|a'|..] == b';
  }

  /** The outline loses nothing: two forests with the same outline are the
      same forest. */
  lemma {:induction false} OutlineDeterminesForest(f: seq<Node>, g: seq<Node>, d: nat)
    requires Outline(f, d) == Outline(g, d)
    ensures f == g
    decreases f
  {
    if |f| > 0 && |g| > 0 {
      OutlineSplit(f, g, d);
      OutlineDeterminesForest(f[1..], g[1..], d);
      if f[0].Element? {
        OutlineDeterminesForest(f[0].children, g[0].children, d + 1);
      }
      SameNodeFromParts(f[0], g[0]);
      assert f == [f[0]] + f[1..] && g == [g[0]] + g[1..];
    } else {
      assert |Outline(f, d)| == 0 <==> |f| == 0;
      assert |Outline(g, d)| == 0 <==> |g| == 0;
    }
  }

  /** Equal outlines of non-empty forests have equal first nodes (up to
      their children), equal child outlines and equal outlines of the rest. */
  lemma OutlineSplit(f: seq<Node>, g: seq<Node>, d: nat)
    requires |f| > 0 && |g| > 0 && Outline(f, d) == Outline(g, d)
    ensures Shallow(f[0]) == Shallow(g[0])
    ensures Outline(Children(f[0]), d + 1) == Outline(Children(g[0]), d + 1)
    ensures Outline(f[1..], d) == Outline(g[1..], d)
  {
    var ix, iy := Outline(Children(f[0]), d + 1), Outline(Children(g[0]), d + 1);
    var rf, rg := Outline(f[1..], d), Outline(g[1..], d);
    OutlineCons(f, d);
    OutlineCons(g, d);
    OutlineDepths(Children(f[0]), d);
    OutlineDepths(Children(g[0]), d);
    OutlineDepths(f[1..], d);
    OutlineDepths(g[1..], d);
    assert ix + rf == Outline(f, d)[1..];
    assert iy + rg == Outline(g, d)[1..];
    SplitAtDepth(ix, rf, iy, rg, d);
  }

  /** A node is fixed by its shallow copy and its children. */
  lemma SameNodeFromParts(x: Node, y: Node)
    requires Shallow(x) == Shallow(y)
    requires x.Element? ==> x.children == y.children
    ensures x == y
  {}

  /** So the reference scan pins `Prune` down: the pruned document is the
      only forest whose outline is the original outline with the selected
      subtrees skipped. */
  lemma PruneIsSkipSelected(forest: seq<Node>, p: Node -> bool, r: seq<Node>)
    requires Outline(r, 0) == SkipSelected(Outline(forest, 0), p, None)
    ensures r == Prune(forest, p)
  {
    PruneOutline(forest, p);
    OutlineDeterminesForest(r, Prune(forest, p), 0);
  }

  /** Two removal passes in a row remove exactly what one pass with the
      disjunction of their tests removes; so the order of the passes does
      not matter. */
  lemma {:induction false} PruneTwice(forest: seq<Node>, p: Node -> bool, q: Node -> bool, both: Node -> bool)
    requires forall n :: both(n) == (p(n) || q(n))
    ensures Prune(Prune(forest, p), q) == Prune(forest, both)
    decreases forest
  {
    if |forest| > 0 {
      var x := forest[0];
      PruneTwice(forest[1..], p, q, both);
      if !p(Shallow(x)) {
        var once := Prune(forest, p);
        assert once[0] == PruneNode(x, p) && once[1..] == Prune(forest[1..], p);
        if !q(Shallow(x)) && x.Element? {
          PruneTwice(x.children, p, q, both);
        }
      }
    }
  }

  /** Removal passes run one after another, in list order. */
  function PruneEach(forest: seq<Node>, passes: seq<Node -> bool>): seq<Node>
    decreases |passes|
  {
    if |passes| == 0 then forest else PruneEach(Prune(forest, passes[0]), passes[1..])
  }

  /** Some pass of the list selects the node. */
  predicate SelectedByAny(passes: seq<Node -> bool>, n: Node)
    decreases |passes|
  {
    |passes| > 0 && (passes[0](n) || SelectedByAny(passes[1..], n))
  }

  function AnyPass(passes: seq<Node -> bool>): Node -> bool {
    n => SelectedByAny(passes, n)
  }

  /** A list of removal passes run in order removes exactly what one pass
      with their disjunction removes. */
  lemma {:induction false} PruneEachIsOnePass(forest: seq<Node>, passes: seq<Node -> bool>)
    ensures PruneEach(forest, passes) == Prune(forest, AnyPass(passes))
    decreases |passes|
  {
    if |passes| == 0 {
      PruneNothing(forest, AnyPass(passes));
    } else {
      var rest := passes[1..];
      PruneEachIsOnePass(Prune(forest, passes[0]), rest);
      PruneTwice(forest, passes[0], AnyPass(rest), AnyPass(passes));
    }
  }

  /** Hence the order of the passes does not matter: two lists that select
      the same nodes remove the same subtrees. */
  lemma PassOrderIrrelevant(forest: seq<Node>, passes: seq<Node -> bool>, others: seq<Node -> bool>)
    requires forall n :: SelectedByAny(passes, n) == SelectedByAny(others, n)
    ensures PruneEach(forest, passes) == PruneEach(forest, others)
  {
    PruneEachIsOnePass(forest, passes);
    PruneEachIsOnePass(forest, others);
    PruneSameTest(forest, AnyPass(passes), AnyPass(others));
  }

  /** Pruning depends only on which nodes the test selects. */
  lemma {:induction false} PruneSameTest(forest: seq<Node>, p: Node -> bool, q: Node -> bool)
    requires forall n :: p(n) == q(n)
    ensures Prune(forest, p) == Prune(forest, q)
    decreases forest
  {
    if |forest| > 0 {
      PruneSameTest(forest[1..], p, q);
      if forest[0].Element? {
        PruneSameTest(forest[0].children, p, q);
      }
    }
  }

  /** A pass that selects nothing leaves the document as it is. */
  lemma {:induction false} PruneNothing(forest: seq<Node>, p: Node -> bool)
    requires NoneMatch(PreOrder(forest), p)
    ensures Prune(forest, p) == forest
    decreases forest
  {
    if |forest| > 0 {
      var head, inner, rest := [forest[0]], PreOrder(Children(forest[0])), PreOrder(forest[1..]);
      assert PreOrder(forest) == head + inner + rest;
      assert NoneMatch(inner, p) by {
        forall i | 0 <= i < |inner| ensures !p(Shallow(inner[i])) {
          assert inner[i] == PreOrder(forest)[1 + i];
        }
      }
      assert NoneMatch(rest, p) by {
        forall i | 0 <= i < |rest| ensures !p(Shallow(rest[i])) {
          assert rest[i] == PreOrder(forest)[1 + |inner| + i];
        }
      }
      if forest[0].Element? {
        PruneNothing(forest[0].children, p);
      }
      PruneNothing(forest[1..], p);
      assert !p(Shallow(PreOrder(forest)[0]));
      assert forest == [forest[0]] + forest[1..];
    }
  }

  /** Every node of a node's subtree is a node of the document it sits in. */
  lemma {:induction false} SubtreeWithinDocument(forest: seq<Node>, x: Node)
    requires x in PreOrder(forest)
    ensures forall y :: y in PreOrder([x]) ==> y in PreOrder(forest)
    decreases forest
  {
    var head, inner, rest := [forest[0]], PreOrder(Children(forest[0])), PreOrder(forest[1..]);
    assert PreOrder(forest) == head + inner + rest;
    assert PreOrder([x]) == [x] + PreOrder(Children(x)) + PreOrder([x][1..]);
    assert [x][1..] == [];
    if x == forest[0] {
    } else if x in inner {
      assert forest[0].Element?;
      SubtreeWithinDocument(forest[0].children, x);
    } else {
      SubtreeWithinDocument(forest[1..], x);
    }
  }
}
