/** The parsed article as the scraper sees it: a flat sequence of nodes in
    document (pre-order) order, each pointing at its parent by index.
    `next_elements` of node `i` is the suffix after `i`, `find_all_previous`
    is the prefix before `i` read backwards, and `find_parent` walks up the
    parent indices. */
module Dom {
  import opened Wrappers

  /** One node. `tag` is the element name, "" for a text node and
      "[document]" for the root; `text` is what `get_text(" ")` returns for it. */
  datatype Node = Node(tag: string, classes: seq<string>, attrs: map<string, string>, text: string, parent: Option<nat>)

  type Doc = seq<Node>

  const RootTag := "[document]"

  /** Node 0 is the document root; every other node has a parent that precedes it. */
  predicate WellFormed(doc: Doc) {
    && |doc| > 0
    && doc[0].tag == RootTag
    && doc[0].parent.None?
    && forall i :: 0 < i < |doc| ==> doc[i].parent.Some? && doc[i].parent.value < i
  }

  /** `tag.get(key, "")`. */
  function Attr(n: Node, key: string): string {
    if key in n.attrs then n.attrs[key] else ""
  }

  /** The first node at or after `from` that satisfies `p` (a forward scan of `next_elements`). */
  function FirstWhere(doc: Doc, from: nat, p: Node -> bool): (r: Option<nat>)
    requires from <= |doc|
    ensures r.Some? ==> from <= r.value < |doc| && p(doc[r.value])
    decreases |doc| - from
  {
    if from == |doc| then None
    else if p(doc[from]) then Some(from)
    else FirstWhere(doc, from + 1, p)
  }

  /** No node before the one found satisfies `p`; when none is found, no node does. */
  lemma {:induction false} FirstWhereIsFirst(doc: Doc, from: nat, p: Node -> bool)
    requires from <= |doc|
    ensures var r := FirstWhere(doc, from, p);
      && (r.Some? ==> forall j :: from <= j < r.value ==> !p(doc[j]))
      && (r.None? ==> forall j :: from <= j < |doc| ==> !p(doc[j]))
    decreases |doc| - from
  {
    if from < |doc| && !p(doc[from]) {
      FirstWhereIsFirst(doc, from + 1, p);
    }
  }

  /** The last node before `k` that satisfies `p` (a backward scan of `find_all_previous`). */
  function LastBefore(doc: Doc, k: nat, p: Node -> bool): (r: Option<nat>)
    requires k <= |doc|
    ensures r.Some? ==> r.value < k && p(doc[r.value])
  {
    if k == 0 then None
    else if p(doc[k - 1]) then Some(k - 1)
    else LastBefore(doc, k - 1, p)
  }

  /** No node between the one found and `k` satisfies `p`; when none is found, no node before `k` does. */
  lemma {:induction false} LastBeforeIsNearest(doc: Doc, k: nat, p: Node -> bool)
    requires k <= |doc|
    ensures var r := LastBefore(doc, k, p);
      && (r.Some? ==> forall j :: r.value < j < k ==> !p(doc[j]))
      && (r.None? ==> forall j :: 0 <= j < k ==> !p(doc[j]))
  {
    if k > 0 && !p(doc[k - 1]) {
      LastBeforeIsNearest(doc, k - 1, p);
    }
  }

  /** `a` is a proper ancestor of `i`. */
  predicate IsAncestor(doc: Doc, a: nat, i: nat)
    requires WellFormed(doc) && i < |doc|
    ensures IsAncestor(doc, a, i) ==> a < i
    decreases i
  {
    i > 0 && (doc[i].parent.value == a || IsAncestor(doc, a, doc[i].parent.value))
  }

  /** `find_parent(names)`: the nearest proper ancestor whose tag is one of `names`. */
  function FindParent(doc: Doc, i: nat, names: set<string>): (r: Option<nat>)
    requires WellFormed(doc) && i < |doc|
    ensures r.Some? ==> IsAncestor(doc, r.value, i) && doc[r.value].tag in names
    ensures r.Some? ==> forall b :: r.value < b < i && IsAncestor(doc, b, i) ==> doc[b].tag !in names
    ensures r.None? ==> forall b :: 0 <= b < i && IsAncestor(doc, b, i) ==> doc[b].tag !in names
    decreases i
  {
    if i == 0 then None
    else
      var p := doc[i].parent.value;
      if doc[p].tag in names then Some(p) else FindParent(doc, p, names)
  }
}
