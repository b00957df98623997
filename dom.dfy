/** The parsed HTML tree both chunkers walk, and the two BeautifulSoup
    queries they use on it: `find(name)` (first match in document order) and
    `find_all(names, recursive=False)` (matching direct children). */
module Dom {
  import opened Seqs

  /** A node of the parse tree: an element with its tag name (lower-cased by
      the parser), its `class` attribute as a list of class names (empty when
      absent), its `id` attribute, its other attributes as name/value pairs
      in document order, and its children; a run of text; or a comment,
      which the parser keeps as a string apart from the text. */
  datatype Node =
    | Element(name: string, classes: seq<string>, id: Option<string>,
              attrs: seq<(string, string)>, children: seq<Node>)
    | Text(text: string)
    | Comment(text: string)

  /** A parsed page: the top-level nodes of the soup. */
  type Document = seq<Node>

  /** The children of an element; a text node has none. */
  function ChildrenOf(n: Node): seq<Node>
  {
    if n.Element? then n.children else []
  }

  predicate IsNamed(n: Node, names: set<string>)
  {
    n.Element? && n.name in names
  }

  /** `e.find_all(names, recursive=False)` over the children `nodes`: the
      elements among them whose tag name is in `names`, in sibling order. */
  function NamedIn(nodes: seq<Node>, names: set<string>): (r: seq<Node>)
    ensures forall c :: c in r ==> c in nodes && IsNamed(c, names)
    ensures forall c :: c in nodes && IsNamed(c, names) ==> c in r
  {
    if |nodes| == 0 then []
    else (if IsNamed(nodes[0], names) then [nodes[0]] else []) + NamedIn(nodes[1..], names)
  }

  /** For each position of `nodes`, whether that node is a matching element. */
  function NamedMask(nodes: seq<Node>, names: set<string>): (keep: seq<bool>)
    ensures |keep| == |nodes|
    ensures forall k :: 0 <= k < |nodes| ==> keep[k] == IsNamed(nodes[k], names)
  {
    seq(|nodes|, k requires 0 <= k < |nodes| => IsNamed(nodes[k], names))
  }

  /** The matches keep their sibling order: exactly the matching positions survive. */
  lemma {:induction false} NamedInKeepsOrder(nodes: seq<Node>, names: set<string>)
    ensures NamedIn(nodes, names) == Select(nodes, NamedMask(nodes, names))
  {
    if |nodes| > 0 {
      NamedInKeepsOrder(nodes[1..], names);
      assert NamedMask(nodes, names)[1..] == NamedMask(nodes[1..], names);
    }
  }

  /** Every element of the subtree `n` in document (pre-)order, `n` first. */
  function DescendantsOf(n: Node): seq<Node>
  {
    match n
    case Text(_) => []
    case Comment(_) => []
    case Element(_, _, _, _, cs) => [n] + Descendants(cs)
  }

  /** Every element below the sibling list `nodes`, in document order. */
  function Descendants(nodes: seq<Node>): seq<Node>
  {
    if |nodes| == 0 then [] else DescendantsOf(nodes[0]) + Descendants(nodes[1..])
  }

  /** The first element of `xs` named `name`. */
  function FirstNamed(xs: seq<Node>, name: string): (r: Option<Node>)
    ensures r.Some? ==> r.value in xs && IsNamed(r.value, {name})
    ensures r.None? ==> forall x :: x in xs ==> !IsNamed(x, {name})
  {
    if |xs| == 0 then None
    else if IsNamed(xs[0], {name}) then Some(xs[0])
    else FirstNamed(xs[1..], name)
  }

  lemma {:induction false} FirstNamedAppend(a: seq<Node>, b: seq<Node>, name: string)
    ensures FirstNamed(a + b, name) == if FirstNamed(a, name).Some? then FirstNamed(a, name) else FirstNamed(b, name)
  {
    if |a| == 0 {
      assert a + b == b;
    } else {
      assert (a + b)[1..] == a[1..] + b;
      FirstNamedAppend(a[1..], b, name);
    }
  }

  /** BeautifulSoup's `find(name)` on the subtree `n` (searching `n` itself first). */
  function FindAt(n: Node, name: string): Option<Node>
  {
    match n
    case Text(_) => None
    case Comment(_) => None
    case Element(tag, _, _, _, cs) => if tag == name then Some(n) else FindIn(cs, name)
  }

  /** BeautifulSoup's `find(name)` below the sibling list `nodes`: depth-first,
      left to right, the first element whose tag is `name`. */
  function FindIn(nodes: seq<Node>, name: string): Option<Node>
  {
    if |nodes| == 0 then None
    else match FindAt(nodes[0], name)
      case Some(m) => Some(m)
      case None => FindIn(nodes[1..], name)
  }

  /** The depth-first search returns the first element with that tag in
      document order, and finds nothing only when there is none. */
  lemma {:induction false} FindInIsFirstInDocumentOrder(nodes: seq<Node>, name: string)
    ensures FindIn(nodes, name) == FirstNamed(Descendants(nodes), name)
    decreases nodes
  {
    if |nodes| > 0 {
      FindAtIsFirstInDocumentOrder(nodes[0], name);
      FindInIsFirstInDocumentOrder(nodes[1..], name);
      FirstNamedAppend(DescendantsOf(nodes[0]), Descendants(nodes[1..]), name);
    }
  }

  lemma {:induction false} FindAtIsFirstInDocumentOrder(n: Node, name: string)
    ensures FindAt(n, name) == FirstNamed(DescendantsOf(n), name)
    decreases n
  {
    match n
    case Text(_) =>
    case Comment(_) =>
    case Element(tag, _, _, _, cs) =>
      FindInIsFirstInDocumentOrder(cs, name);
      assert ([n] + Descendants(cs))[1..] == Descendants(cs);
  }

  /** What `find` returns is an element with the requested tag, and it
      returns nothing exactly when the tree holds no such element. */
  lemma FindInFindsNamed(nodes: seq<Node>, name: string)
    ensures FindIn(nodes, name).Some? ==>
              FindIn(nodes, name).value in Descendants(nodes) && IsNamed(FindIn(nodes, name).value, {name})
    ensures FindIn(nodes, name).None? <==> forall x :: x in Descendants(nodes) ==> !IsNamed(x, {name})
  {
    FindInIsFirstInDocumentOrder(nodes, name);
  }
}
