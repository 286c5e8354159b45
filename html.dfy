/**
 * The parse tree the crawler receives from BeautifulSoup, and the three
 * queries it makes of it: `find` of the content container, `get_text`, and
 * `find_all("a", href=True)`. Parsing itself is outside the model; a
 * document is the list of top-level nodes of the soup.
 */
module Html {
  import opened Wrappers
  import opened Text

  datatype Node =
    | TextNode(text: string)
    | Tag(name: string, attrs: map<string, string>, children: seq<Node>)

  type Document = seq<Node>

  /** All nodes of a forest in document order: each node before its descendants, siblings left to right. */
  function Preorder(ns: seq<Node>): seq<Node>
    decreases ns
  {
    if ns == [] then []
    else
      [ns[0]] + (match ns[0] case TextNode(_) => [] case Tag(_, _, cs) => Preorder(cs)) + Preorder(ns[1..])
  }

  /** `<div id="content-area">`. */
  predicate IsContentArea(n: Node)
  {
    n.Tag? && n.name == "div" && "id" in n.attrs && n.attrs["id"] == "content-area"
  }

  /** The first content-area node of a list. */
  function FirstContentArea(ns: seq<Node>): (r: Option<Node>)
    ensures r.None? <==> forall i :: 0 <= i < |ns| ==> !IsContentArea(ns[i])
    ensures r.Some? ==> exists i :: 0 <= i < |ns| && ns[i] == r.value && IsContentArea(ns[i])
                                    && forall j :: 0 <= j < i ==> !IsContentArea(ns[j])
  {
    if ns == [] then None
    else if IsContentArea(ns[0]) then Some(ns[0])
    else
      var r := FirstContentArea(ns[1..]);
      assert r.Some? ==> exists i :: 1 <= i < |ns| && ns[i] == r.value && IsContentArea(ns[i])
                                     && forall j :: 0 <= j < i ==> !IsContentArea(ns[j]) by {
        if r.Some? {
          var i :| 0 <= i < |ns[1..]| && ns[1..][i] == r.value && IsContentArea(ns[1..][i])
                   && forall j :: 0 <= j < i ==> !IsContentArea(ns[1..][j]);
          assert ns[i + 1] == r.value;
          forall j | 0 <= j < i + 1 ensures !IsContentArea(ns[j]) {
            if j > 0 { assert ns[j] == ns[1..][j - 1]; }
          }
        }
      }
      r
  }

  /** `soup.find("div", id="content-area")`: the first such node in document order. */
  function FindContentArea(doc: Document): Option<Node>
  {
    FirstContentArea(Preorder(doc))
  }

  /** The text nodes of a list of nodes, in order. */
  function TextsOf(ns: seq<Node>): (r: seq<string>)
    ensures |r| <= |ns|
  {
    if ns == [] then []
    else (if ns[0].TextNode? then [ns[0].text] else []) + TextsOf(ns[1..])
  }

  /** `region.get_text(separator=sep)`: the text nodes below the region, in document order, joined by `sep`. */
  function GetText(region: Document, sep: string): string
  {
    JoinWith(sep, TextsOf(Preorder(region)))
  }

  predicate IsLink(n: Node)
  {
    n.Tag? && n.name == "a" && "href" in n.attrs
  }

  /** The `href` values of the `<a href=...>` nodes of a list, in order. */
  function HrefsOf(ns: seq<Node>): (r: seq<string>)
    ensures forall h :: h in r <==> exists i :: 0 <= i < |ns| && IsLink(ns[i]) && ns[i].attrs["href"] == h
  {
    if ns == [] then []
    else
      var rest := HrefsOf(ns[1..]);
      assert forall h :: h in rest <==> exists i :: 1 <= i < |ns| && IsLink(ns[i]) && ns[i].attrs["href"] == h by {
        forall h | h in rest ensures exists i :: 1 <= i < |ns| && IsLink(ns[i]) && ns[i].attrs["href"] == h {
          var i :| 0 <= i < |ns[1..]| && IsLink(ns[1..][i]) && ns[1..][i].attrs["href"] == h;
          assert ns[i + 1] == ns[1..][i];
        }
        forall h | (exists i :: 1 <= i < |ns| && IsLink(ns[i]) && ns[i].attrs["href"] == h) ensures h in rest {
          var i :| 1 <= i < |ns| && IsLink(ns[i]) && ns[i].attrs["href"] == h;
          assert ns[1..][i - 1] == ns[i];
        }
      }
      (if IsLink(ns[0]) then [ns[0].attrs["href"]] else []) + rest
  }

  /** `[a["href"] for a in soup.find_all("a", href=True)]`. */
  function FindAllHrefs(doc: Document): seq<string>
  {
    HrefsOf(Preorder(doc))
  }
}
