/**
 * The parse tree the crawler searches, and the BeautifulSoup searches it
 * uses: `find`/`find_all` by tag name with a class, a `.string` or an
 * attribute condition, `select`/`select_one` with simple CSS selectors,
 * `get`, `get_text`, `.string` and `find_parent`. Parsing the HTML text into
 * the tree is not part of this model.
 */
module Markup {
  import opened Wrappers
  import opened Text

  /**
   * A node of the tree: a text run or a tag. The `class` attribute is kept
   * as the list of class names the parser makes of it; the other attributes
   * are kept in document order.
   */
  datatype Node =
    | TextNode(text: string)
    | Element(name: string, classes: seq<string>, attrs: seq<(string, string)>, children: seq<Node>)

  /** The root object of a parsed page; its name never matches a real tag. */
  function Document(top: seq<Node>): Node {
    Element("[document]", [], [], top)
  }

  /** The value of attribute `key` (the last one written wins), or `""`. */
  function AttrIn(attrs: seq<(string, string)>, key: string): string {
    if attrs == [] then ""
    else if attrs[|attrs| - 1].0 == key then attrs[|attrs| - 1].1
    else AttrIn(attrs[..|attrs| - 1], key)
  }

  /** `tag.get(key, '')` */
  function Attr(n: Node, key: string): string {
    if n.Element? then AttrIn(n.attrs, key) else ""
  }

  /** The text runs below `ns`, concatenated in document order. */
  function ForestText(ns: seq<Node>): string
    decreases ns
  {
    if ns == [] then ""
    else (if ns[0].TextNode? then ns[0].text else ForestText(ns[0].children)) + ForestText(ns[1..])
  }

  /** `tag.get_text()` */
  function GetText(n: Node): string {
    ForestText([n])
  }

  /** `tag.string`: the text of a node whose only content, at every level, is one text run. */
  function StringOf(n: Node): Option<string> {
    if n.TextNode? then Some(n.text)
    else if |n.children| == 1 then StringOf(n.children[0])
    else None
  }

  /** The element conditions the crawler searches with. */
  datatype Matcher =
    | Tag(name: string)                                 // find('strong'), select('tr')
    | TagClass(name: string, cls: string)               // find('div', class_='item'), select('div.links')
    | TagId(name: string, id: string)                   // select('div#magnet-links')
    | TagClassContains(name: string, part: string)      // select('div[class*="magnet"]')
    | TagString(name: string, s: string)                // find('a', string='複製')
    | TagStringHasAny(name: string, needles: seq<string>) // find_all('div', string=lambda t: t and (...))
    | TagAttrPrefix(name: string, key: string, prefix: string) // find('a', href=lambda x: x and x.startswith(...))

  /** Whether the element `n` satisfies `m`. */
  predicate Matches(n: Node, m: Matcher) {
    n.Element? && n.name == m.name &&
    match m
    case Tag(_) => true
    case TagClass(_, cls) => cls in n.classes
    case TagId(_, id) => Attr(n, "id") == id
    case TagClassContains(_, part) => Occurs(Join(n.classes, ' '), part)
    case TagString(_, s) => StringOf(n) == Some(s)
    case TagStringHasAny(_, needles) =>
      StringOf(n).Some? && StringOf(n).value != ""
      && exists k :: 0 <= k < |needles| && Occurs(StringOf(n).value, needles[k])
    case TagAttrPrefix(_, key, prefix) => Attr(n, key) != "" && StartsWith(Attr(n, key), prefix)
  }

  /** The elements below `ns`, in document order (a node before its children, children in order). */
  function Elements(ns: seq<Node>): (r: seq<Node>)
    ensures forall k :: 0 <= k < |r| ==> r[k].Element?
    decreases ns
  {
    if ns == [] then []
    else (if ns[0].Element? then [ns[0]] + Elements(ns[0].children) else []) + Elements(ns[1..])
  }

  /** The elements strictly below `n`. */
  function Descendants(n: Node): seq<Node> {
    if n.Element? then Elements(n.children) else []
  }

  predicate Matching(m: Matcher, n: Node) {
    Matches(n, m)
  }

  /** `n.find_all(...)` and `n.select(...)`: the matching descendants, in document order. */
  function FindAll(n: Node, m: Matcher): (r: seq<Node>)
    ensures forall d :: d in r <==> d in Descendants(n) && Matches(d, m)
    ensures IsSubsequence(r, Descendants(n))
  {
    Filter(Descendants(n), d => Matching(m, d))
  }

  /** `n.find(...)` and `n.select_one(...)`: the first matching descendant. */
  function Find(n: Node, m: Matcher): (r: Option<Node>)
    ensures r.None? <==> forall d :: d in Descendants(n) ==> !Matches(d, m)
    ensures r.Some? ==> Matches(r.value, m) && r.value in Descendants(n)
  {
    var all := FindAll(n, m);
    if all == [] then None
    else
      assert all[0] in all;
      Some(all[0])
  }

  /** Python's `a or b` on two search results. */
  function OrElse(a: Option<Node>, b: Option<Node>): Option<Node> {
    if a.Some? then a else b
  }

  /**
   * Every element below `ns` in document order, each with its ancestors
   * (outermost first); `above` are the ancestors of `ns` themselves.
   */
  function Located(ns: seq<Node>, above: seq<Node>): (r: seq<(Node, seq<Node>)>)
    decreases ns
  {
    if ns == [] then []
    else
      (if ns[0].Element? then [(ns[0], above)] + Located(ns[0].children, above + [ns[0]]) else [])
      + Located(ns[1..], above)
  }

  /** The located elements are the elements, in the same order. */
  lemma {:induction false} LocatedElements(ns: seq<Node>, above: seq<Node>)
    ensures |Located(ns, above)| == |Elements(ns)|
    ensures forall k :: 0 <= k < |Elements(ns)| ==> Located(ns, above)[k].0 == Elements(ns)[k]
    decreases ns
  {
    if ns != [] {
      LocatedElements(ns[1..], above);
      if ns[0].Element? {
        LocatedElements(ns[0].children, above + [ns[0]]);
      }
    }
  }

  /** `find_parent(name)`: the nearest ancestor with that tag name. */
  function FindParent(ancestors: seq<Node>, name: string): (r: Option<Node>)
    ensures r.Some? ==> r.value in ancestors && r.value.Element? && r.value.name == name
    ensures r.None? <==> forall k :: 0 <= k < |ancestors| ==> !(ancestors[k].Element? && ancestors[k].name == name)
  {
    if ancestors == [] then None
    else
      var last := ancestors[|ancestors| - 1];
      if last.Element? && last.name == name then Some(last)
      else
        var r := FindParent(ancestors[..|ancestors| - 1], name);
        assert forall k :: 0 <= k < |ancestors| - 1 ==> ancestors[..|ancestors| - 1][k] == ancestors[k];
        r
  }
}
