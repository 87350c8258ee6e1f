/** An immutable model of the rendered page the extractors read.

    An element has a tag name (stored lower-case, the way HTML selectors and
    the upper-case `tagName` compare it), its attributes, its class set and
    its ordered children; text lives in text leaves. The document itself is
    the root element: `document.querySelectorAll` ranges over the root's
    proper descendants, and `el.querySelectorAll` over the proper descendants
    of `el`, in both cases in document (pre-)order. */
module Dom {
  import opened Util

  datatype Node =
    | Element(tag: string, attrs: map<string, string>, classes: set<string>, children: seq<Node>)
    | Text(data: string)

  /** An element reached by a query, with its `nextElementSibling`. */
  datatype Located = Located(node: Node, next: Option<Node>)

  /** `textContent`: the text leaves of the subtree in document order. */
  function TextContent(n: Node): string
    decreases n
  {
    match n
    case Text(d) => d
    case Element(_, _, _, cs) => ForestText(cs)
  }

  function ForestText(cs: seq<Node>): string
    decreases cs
  {
    if cs == [] then [] else TextContent(cs[0]) + ForestText(cs[1..])
  }

  /** The first element among `cs`: the `nextElementSibling` of whatever
      node stands just before `cs`, skipping text leaves. */
  function NextElement(cs: seq<Node>): (r: Option<Node>)
    ensures r.Some? ==> r.value.Element? && exists i :: 0 <= i < |cs| && cs[i] == r.value && forall j :: 0 <= j < i ==> cs[j].Text?
    ensures r.None? <==> forall i :: 0 <= i < |cs| ==> cs[i].Text?
  {
    if cs == [] then None
    else if cs[0].Element? then Some(cs[0])
    else
      var r := NextElement(cs[1..]);
      assert forall i :: 1 <= i < |cs| ==> cs[1..][i - 1] == cs[i];
      r
  }

  /** The text of a run of siblings followed by another is the first run's
      text followed by the second's. */
  lemma {:induction false} ForestTextAppend(a: seq<Node>, b: seq<Node>)
    ensures ForestText(a + b) == ForestText(a) + ForestText(b)
  {
    if a != [] {
      assert (a + b)[1..] == a[1..] + b;
      ForestTextAppend(a[1..], b);
    } else {
      assert a + b == b;
    }
  }

  predicate WellLocated(l: Located) {
    l.node.Element? && (l.next.Some? ==> l.next.value.Element?)
  }

  /** The elements of the subtree rooted at `n`, `n` first, in document order. */
  function SubtreeWalk(n: Node, next: Option<Node>): (r: seq<Located>)
    requires next.Some? ==> next.value.Element?
    ensures forall i :: 0 <= i < |r| ==> WellLocated(r[i])
    ensures n.Element? ==> |r| > 0 && r[0] == Located(n, next)
    decreases n
  {
    match n
    case Text(_) => []
    case Element(_, _, _, cs) => [Located(n, next)] + ForestWalk(cs)
  }

  /** The elements of a run of siblings and of their subtrees, in document order. */
  function ForestWalk(cs: seq<Node>): (r: seq<Located>)
    ensures forall i :: 0 <= i < |r| ==> WellLocated(r[i])
    decreases cs
  {
    if cs == [] then []
    else SubtreeWalk(cs[0], NextElement(cs[1..])) + ForestWalk(cs[1..])
  }

  /** Every element strictly below `n`, in document order. */
  function Descendants(n: Node): (r: seq<Located>)
    ensures forall i :: 0 <= i < |r| ==> WellLocated(r[i])
  {
    match n
    case Text(_) => []
    case Element(_, _, _, cs) => ForestWalk(cs)
  }

  /** The walk of a forest reaches each element of it, with its next element sibling. */
  lemma {:induction false} ForestWalkReaches(cs: seq<Node>, j: nat)
    requires j < |cs| && cs[j].Element?
    ensures Located(cs[j], NextElement(cs[j + 1..])) in ForestWalk(cs)
  {
    if j == 0 {
      assert SubtreeWalk(cs[0], NextElement(cs[1..]))[0] == Located(cs[0], NextElement(cs[1..]));
    } else {
      ForestWalkReaches(cs[1..], j - 1);
      assert cs[1..][j - 1] == cs[j] && cs[1..][j..] == cs[j + 1..];
    }
  }

  /** Each child element of `n` is among its descendants, with its `nextElementSibling`. */
  lemma ChildIsDescendant(n: Node, j: nat)
    requires n.Element? && j < |n.children| && n.children[j].Element?
    ensures Located(n.children[j], NextElement(n.children[j + 1..])) in Descendants(n)
  {
    ForestWalkReaches(n.children, j);
  }

  /** The elements of `ls` that satisfy the selector `p`, order kept. */
  function Select(ls: seq<Located>, p: Node -> bool): (r: seq<Located>)
    ensures |r| <= |ls|
    ensures forall l :: l in r <==> l in ls && p(l.node)
    ensures forall i :: 0 <= i < |r| ==> p(r[i].node)
  {
    if ls == [] then []
    else
      var init := Select(ls[..|ls| - 1], p);
      assert forall l :: l in ls <==> l in ls[..|ls| - 1] || l == ls[|ls| - 1];
      if p(ls[|ls| - 1].node) then init + [ls[|ls| - 1]] else init
  }

  /** The first match of a selector in `ls` is its first element that matches. */
  lemma {:induction false} SelectFirst(ls: seq<Located>, p: Node -> bool)
    requires |Select(ls, p)| > 0
    ensures exists k :: 0 <= k < |ls| && ls[k] == Select(ls, p)[0] && forall j :: 0 <= j < k ==> !p(ls[j].node)
  {
    var init := ls[..|ls| - 1];
    if |Select(init, p)| > 0 {
      SelectFirst(init, p);
      var k :| 0 <= k < |init| && init[k] == Select(init, p)[0] && forall j :: 0 <= j < k ==> !p(init[j].node);
      assert ls[k] == init[k];
      assert forall j :: 0 <= j < k ==> ls[j] == init[j];
    } else {
      forall j | 0 <= j < |ls| - 1
        ensures !p(ls[j].node)
      {
        assert ls[j] == init[j] && init[j] in init;
      }
      assert Select(ls, p)[0] == ls[|ls| - 1];
    }
  }

  /** Filtering keeps order: the matches of one run followed by another are
      the first run's matches followed by the second's. */
  lemma {:induction false} SelectAppend(a: seq<Located>, b: seq<Located>, p: Node -> bool)
    ensures Select(a + b, p) == Select(a, p) + Select(b, p)
  {
    if b == [] {
      assert a + b == a;
    } else {
      assert (a + b)[..|a + b| - 1] == a + b[..|b| - 1];
      SelectAppend(a, b[..|b| - 1], p);
    }
  }

  /** `root.querySelectorAll(selector)`. */
  function QueryAll(root: Node, p: Node -> bool): (r: seq<Located>)
    ensures forall i :: 0 <= i < |r| ==> WellLocated(r[i]) && p(r[i].node)
    ensures forall l :: l in r <==> l in Descendants(root) && p(l.node)
  {
    var r := Select(Descendants(root), p);
    assert forall i :: 0 <= i < |r| ==> r[i] in Descendants(root);
    r
  }

  /** `root.querySelector(selector)`: the first match in document order. */
  function QueryFirst(root: Node, p: Node -> bool): (r: Option<Node>)
    ensures r.Some? ==> r.value.Element? && p(r.value)
    ensures r.Some? ==> exists k :: 0 <= k < |Descendants(root)| && Descendants(root)[k].node == r.value
                                    && forall j :: 0 <= j < k ==> !p(Descendants(root)[j].node)
    ensures r.None? <==> |QueryAll(root, p)| == 0
  {
    var all := QueryAll(root, p);
    if |all| == 0 then None
    else
      SelectFirst(Descendants(root), p);
      Some(all[0].node)
  }

  /** The matches below `root` come in document order. */
  lemma QueryAllInOrder(root: Node, p: Node -> bool, a: seq<Located>, b: seq<Located>)
    requires Descendants(root) == a + b
    ensures QueryAll(root, p) == Select(a, p) + Select(b, p)
  {
    SelectAppend(a, b, p);
  }

  /** `el.getAttribute(name)` used as a truth value: a missing attribute and
      an empty one both read as "". */
  function Attr(n: Node, name: string): (r: string)
    ensures HasAttr(n, name) ==> r == n.attrs[name]
    ensures !HasAttr(n, name) ==> r == []
  {
    if n.Element? && name in n.attrs then n.attrs[name] else ""
  }

  /** `[name]`: the attribute is present, whatever its value. */
  predicate HasAttr(n: Node, name: string) {
    n.Element? && name in n.attrs
  }

  /** `.name`. */
  predicate HasClass(n: Node, name: string) {
    n.Element? && name in n.classes
  }

  /** `*`: any element. */
  predicate IsElement(n: Node) {
    n.Element?
  }

  /** A tag selector such as `dl`, or `el.tagName === 'DL'`. */
  predicate IsTag(n: Node, tag: string) {
    n.Element? && n.tag == tag
  }

  /** A query comes back empty exactly when no element below `root` matches. */
  lemma QueryAllEmpty(root: Node, p: Node -> bool)
    ensures QueryAll(root, p) == [] <==>
              forall i :: 0 <= i < |Descendants(root)| ==> !p(Descendants(root)[i].node)
  {
    var r := QueryAll(root, p);
    if r != [] {
      assert r[0] in Descendants(root);
    }
  }
}
