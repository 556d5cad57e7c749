/**
 * A document whose tree the helpers walk and rearrange in place: parent links,
 * ordered child lists, the layerJS view attached to an element, element class
 * strings and the document's unique-id counters.
 */
module Dom {
  import opened Wrappers
  import opened Tree
  import ClassNames
  import UniqueIds

  /** The layerJS view attached to an element, reduced to its identity and its type. */
  datatype View = View(id: nat, viewType: string)

  predicate Distinct(s: seq<Node>)
  {
    forall i, j :: 0 <= i < j < |s| ==> s[i] != s[j]
  }

  /** The first child that is an element: `element.children[0]`. */
  function FirstElementIndex(s: seq<Node>, kind: map<Node, Kind>): (r: Option<nat>)
    requires forall i :: 0 <= i < |s| ==> s[i] in kind
    ensures r.Some? ==> r.value < |s| && kind[s[r.value]].ElementNode?
    ensures forall j :: 0 <= j < |s| && (r.None? || j < r.value) ==> !kind[s[j]].ElementNode?
  {
    if s == [] then None
    else if kind[s[0]].ElementNode? then Some(0)
    else match FirstElementIndex(s[1..], kind)
      case None => None
      case Some(k) => Some(k + 1)
  }

  /** `options.tag || "div"`. */
  function WrapperTag(tag: Option<string>): (t: string)
    ensures t != ""
    ensures tag.Some? && tag.value != "" ==> t == tag.value
    ensures tag.None? || tag.value == "" ==> t == "div"
  {
    if tag.Some? && tag.value != "" then tag.value else "div"
  }

  /** Every parent link is matched by an entry in the parent's child list. */
  ghost predicate ParentsListed(parent: map<Node, Node>, childNodes: map<Node, seq<Node>>)
  {
    forall c :: c in parent ==> parent[c] in childNodes && c in childNodes[parent[c]]
  }

  /** Every entry of a child list links back to the list's owner. */
  ghost predicate ChildrenLinked(parent: map<Node, Node>, childNodes: map<Node, seq<Node>>)
  {
    forall p, i :: p in childNodes && 0 <= i < |childNodes[p]| ==>
      childNodes[p][i] in parent && parent[childNodes[p][i]] == p
  }

  ghost predicate ChildListsDistinct(childNodes: map<Node, seq<Node>>)
  {
    forall p :: p in childNodes ==> Distinct(childNodes[p])
  }

  ghost predicate LinksAgree(parent: map<Node, Node>, childNodes: map<Node, seq<Node>>)
  {
    ParentsListed(parent, childNodes) && ChildrenLinked(parent, childNodes) && ChildListsDistinct(childNodes)
  }

  /** The child list of `p` without its entry at `k`. */
  function Without(s: seq<Node>, k: nat): (r: seq<Node>)
    requires k < |s|
    ensures |r| == |s| - 1
    ensures forall i :: 0 <= i < |r| ==> r[i] == if i < k then s[i] else s[i + 1]
  {
    s[..k] + s[k + 1..]
  }

  /** After the removal every remaining parent link is still listed. */
  lemma RemoveKeepsListed(parent: map<Node, Node>, childNodes: map<Node, seq<Node>>, p: Node, k: nat)
    requires LinksAgree(parent, childNodes) && p in childNodes && k < |childNodes[p]|
    ensures ParentsListed(parent - {childNodes[p][k]}, childNodes[p := Without(childNodes[p], k)])
  {
    var c := childNodes[p][k];
    var parent', childNodes' := parent - {c}, childNodes[p := Without(childNodes[p], k)];
    forall x | x in parent'
      ensures parent'[x] in childNodes' && x in childNodes'[parent'[x]]
    {
      var m :| 0 <= m < |childNodes[parent[x]]| && childNodes[parent[x]][m] == x;
      if parent[x] == p {
        if m < k {
          assert childNodes'[p][m] == x;
        } else {
          assert childNodes'[p][m - 1] == x;
        }
      }
    }
  }

  /** After the removal every remaining child-list entry still links back. */
  lemma RemoveKeepsLinked(parent: map<Node, Node>, childNodes: map<Node, seq<Node>>, p: Node, k: nat)
    requires LinksAgree(parent, childNodes) && p in childNodes && k < |childNodes[p]|
    ensures ChildrenLinked(parent - {childNodes[p][k]}, childNodes[p := Without(childNodes[p], k)])
    ensures ChildListsDistinct(childNodes[p := Without(childNodes[p], k)])
  {
    var parent', childNodes' := parent - {childNodes[p][k]}, childNodes[p := Without(childNodes[p], k)];
    forall q, i | q in childNodes' && 0 <= i < |childNodes'[q]|
      ensures childNodes'[q][i] in parent' && parent'[childNodes'[q][i]] == q
    {
      if q == p {
        assert childNodes'[q][i] == childNodes[p][if i < k then i else i + 1];
      } else {
        assert childNodes'[q][i] == childNodes[q][i];
      }
    }
  }

  /** Removing a child from its parent's list and its parent link keeps the two in agreement. */
  lemma RemoveKeepsLinks(parent: map<Node, Node>, childNodes: map<Node, seq<Node>>, p: Node, k: nat)
    requires LinksAgree(parent, childNodes) && p in childNodes && k < |childNodes[p]|
    ensures LinksAgree(parent - {childNodes[p][k]}, childNodes[p := Without(childNodes[p], k)])
  {
    RemoveKeepsListed(parent, childNodes, p, k);
    RemoveKeepsLinked(parent, childNodes, p, k);
  }

  /** Appending a node that has no parent to a child list keeps links in agreement. */
  lemma AppendKeepsLinks(parent: map<Node, Node>, childNodes: map<Node, seq<Node>>, p: Node, c: Node)
    requires LinksAgree(parent, childNodes) && p in childNodes && c !in parent
    ensures LinksAgree(parent[c := p], childNodes[p := childNodes[p] + [c]])
  {
    var parent', childNodes' := parent[c := p], childNodes[p := childNodes[p] + [c]];
    assert forall i :: 0 <= i < |childNodes[p]| ==> childNodes[p][i] != c;
    forall x | x in parent'
      ensures parent'[x] in childNodes' && x in childNodes'[parent'[x]]
    {
      if x == c {
        assert childNodes'[p][|childNodes[p]|] == c;
      } else {
        var m :| 0 <= m < |childNodes[parent[x]]| && childNodes[parent[x]][m] == x;
        assert childNodes'[parent[x]][m] == x;
      }
    }
    forall q, i | q in childNodes' && 0 <= i < |childNodes'[q]|
      ensures childNodes'[q][i] in parent' && parent'[childNodes'[q][i]] == q
    {
      if q == p && i == |childNodes[p]| {
        assert childNodes'[q][i] == c;
      } else {
        assert childNodes'[q][i] == childNodes[q][i];
      }
    }
  }

  /** Ranked parent links that agree with the child lists, over one set of nodes. */
  ghost predicate Forest(kind: map<Node, Kind>, parent: map<Node, Node>, childNodes: map<Node, seq<Node>>, depth: map<Node, nat>)
  {
    && childNodes.Keys == kind.Keys
    && depth.Keys == kind.Keys
    && Ranked(parent, depth)
    && LinksAgree(parent, childNodes)
  }

  /** Moving the first child of one node to the end of another's list keeps the forest. */
  lemma MoveKeepsForest(kind: map<Node, Kind>, parent: map<Node, Node>, childNodes: map<Node, seq<Node>>,
                        depth: map<Node, nat>, from: Node, to: Node)
    requires Forest(kind, parent, childNodes, depth) && from in kind && to in kind && from != to
    requires |childNodes[from]| > 0 && depth[to] < depth[childNodes[from][0]]
    ensures var c := childNodes[from][0];
            Forest(kind, parent[c := to], childNodes[from := childNodes[from][1..]][to := childNodes[to] + [c]], depth)
  {
    var c := childNodes[from][0];
    assert Without(childNodes[from], 0) == childNodes[from][1..];
    RemoveKeepsLinks(parent, childNodes, from, 0);
    var parent1 := parent - {c};
    var childNodes1 := childNodes[from := childNodes[from][1..]];
    AppendKeepsLinks(parent1, childNodes1, to, c);
    assert parent1[c := to] == parent[c := to];
    assert childNodes1[to] == childNodes[to];
  }

  /** A node new to the forest, with no links and no children, keeps it a forest. */
  lemma AddNodeKeepsForest(kind: map<Node, Kind>, parent: map<Node, Node>, childNodes: map<Node, seq<Node>>,
                           depth: map<Node, nat>, n: Node, k: Kind)
    requires Forest(kind, parent, childNodes, depth) && n !in kind
    ensures Forest(kind[n := k], parent, childNodes[n := []], depth[n := 0])
  {
    var childNodes' := childNodes[n := []];
    assert Ranked(parent, depth[n := 0]);
    forall c | c in parent
      ensures parent[c] in childNodes' && c in childNodes'[parent[c]]
    {
      assert parent[c] in kind;
    }
    forall q, i | q in childNodes' && 0 <= i < |childNodes'[q]|
      ensures childNodes'[q][i] in parent && parent[childNodes'[q][i]] == q
    {
      assert q != n;
    }
  }

  /** A node is in `p`'s child list exactly when its parent link is `p`. */
  lemma ChildListIsParentLinks(parent: map<Node, Node>, childNodes: map<Node, seq<Node>>, p: Node)
    requires LinksAgree(parent, childNodes) && p in childNodes
    ensures forall c :: c in childNodes[p] ==> c in parent && parent[c] == p
    ensures forall c :: c in parent ==> (parent[c] == p <==> c in childNodes[p])
  {
    forall c | c in childNodes[p]
      ensures c in parent && parent[c] == p
    {
      var m :| 0 <= m < |childNodes[p]| && childNodes[p][m] == c;
    }
  }

  /** A node with an empty child list is nobody's parent. */
  lemma NewNodeHasNoChildren(parent: map<Node, Node>, childNodes: map<Node, seq<Node>>, n: Node)
    requires LinksAgree(parent, childNodes) && n in childNodes && childNodes[n] == []
    ensures forall c :: c in parent ==> parent[c] != n
  {
  }

  /**
   * Ranks after a fresh node `w` is placed between `e` and `e`'s children:
   * every rank doubles and `w` sits just below its future parent.
   */
  ghost function Rerank(depth: map<Node, nat>, w: Node, e: Node): (d: map<Node, nat>)
    requires e in depth
    ensures d.Keys == depth.Keys
  {
    map n | n in depth :: if n == w then 2 * depth[e] + 1 else 2 * depth[n]
  }

  /** Doubling keeps every existing link ranked and leaves room for `w` between `e` and its children. */
  lemma RerankKeepsOrder(parent: map<Node, Node>, depth: map<Node, nat>, w: Node, e: Node)
    requires Ranked(parent, depth) && e in depth && w in depth && e != w && w !in parent
    requires forall c :: c in parent ==> parent[c] != w
    ensures var d := Rerank(depth, w, e);
            && Ranked(parent, d)
            && d[e] < d[w]
            && forall c :: c in parent && parent[c] == e ==> d[w] < d[c]
  {
  }

  /** `to.appendChild(from.childNodes[0])` on the parent links and child lists. */
  function MoveFirst(parent: map<Node, Node>, childNodes: map<Node, seq<Node>>, from: Node, to: Node)
    : (r: (map<Node, Node>, map<Node, seq<Node>>))
    requires from in childNodes && to in childNodes && |childNodes[from]| > 0
    ensures r.1.Keys == childNodes.Keys
  {
    var c := childNodes[from][0];
    (parent[c := to], childNodes[from := childNodes[from][1..]][to := childNodes[to] + [c]])
  }

  /** Repeating that move until `from` has no children left. */
  function MoveAll(parent: map<Node, Node>, childNodes: map<Node, seq<Node>>, from: Node, to: Node)
    : (r: (map<Node, Node>, map<Node, seq<Node>>))
    requires from in childNodes && to in childNodes && from != to
    ensures r.1.Keys == childNodes.Keys
    ensures r.1[from] == []
    decreases |childNodes[from]|
  {
    if |childNodes[from]| == 0 then (parent, childNodes)
    else
      var m := MoveFirst(parent, childNodes, from, to);
      MoveAll(m.0, m.1, from, to)
  }

  /** Moving every child: `from` ends up empty and its children follow `to`'s old children in order. */
  lemma {:induction false} MoveAllChildLists(parent: map<Node, Node>, childNodes: map<Node, seq<Node>>, from: Node, to: Node)
    requires from in childNodes && to in childNodes && from != to
    ensures MoveAll(parent, childNodes, from, to).1
            == childNodes[from := []][to := childNodes[to] + childNodes[from]]
    decreases |childNodes[from]|
  {
    var C := childNodes[from];
    if |C| == 0 {
      assert childNodes[to] + C == childNodes[to];
      assert childNodes[from := []] == childNodes;
      assert childNodes[to := childNodes[to]] == childNodes;
    } else {
      var m := MoveFirst(parent, childNodes, from, to);
      MoveAllChildLists(m.0, m.1, from, to);
      assert m.1[from] == C[1..] && m.1[to] == childNodes[to] + [C[0]];
      assert childNodes[to] + [C[0]] + C[1..] == childNodes[to] + C;
    }
  }

  /** Moving every child: exactly the moved nodes now link to `to`. */
  lemma {:induction false} MoveAllParents(parent: map<Node, Node>, childNodes: map<Node, seq<Node>>, from: Node, to: Node)
    requires from in childNodes && to in childNodes && from != to
    ensures var p := MoveAll(parent, childNodes, from, to).0;
            && p.Keys == parent.Keys + (set c | c in childNodes[from])
            && forall c :: c in p ==> p[c] == if c in childNodes[from] then to else parent[c]
    decreases |childNodes[from]|
  {
    var C := childNodes[from];
    if |C| > 0 {
      var m := MoveFirst(parent, childNodes, from, to);
      MoveAllParents(m.0, m.1, from, to);
      assert m.1[from] == C[1..];
      assert C == [C[0]] + C[1..];
      assert (set c | c in C) == {C[0]} + (set c | c in C[1..]);
    }
  }

  /** `p`'s child list names exactly the nodes whose parent link is `p`. */
  ghost predicate ChildListMatches(parent: map<Node, Node>, childNodes: map<Node, seq<Node>>, p: Node)
    requires p in childNodes
  {
    && (forall c :: c in childNodes[p] ==> c in parent && parent[c] == p)
    && (forall c :: c in parent && parent[c] == p ==> c in childNodes[p])
  }

  /**
   * `wrapChildren` on the links: every child of `e` moves into `w`, which then
   * goes last into `e`'s (now empty) child list.
   */
  function Wrap(parent: map<Node, Node>, childNodes: map<Node, seq<Node>>, e: Node, w: Node)
    : (r: (map<Node, Node>, map<Node, seq<Node>>))
    requires e in childNodes && w in childNodes && e != w
    ensures r.1.Keys == childNodes.Keys && r.1[e] == [w]
    ensures w in r.0 && r.0[w] == e
  {
    var m := MoveAll(parent, childNodes, e, w);
    (m.0[w := e], m.1[e := m.1[e] + [w]])
  }

  /** After wrapping, `e` holds only `w` and `w` holds `e`'s old children, in order. */
  lemma WrapChildLists(parent: map<Node, Node>, childNodes: map<Node, seq<Node>>, e: Node, w: Node)
    requires e in childNodes && w in childNodes && e != w && childNodes[w] == []
    ensures Wrap(parent, childNodes, e, w).1 == childNodes[e := [w]][w := childNodes[e]]
  {
    MoveAllChildLists(parent, childNodes, e, w);
    assert [] + childNodes[e] == childNodes[e];
    assert [] + [w] == [w];
  }

  /** After wrapping, `w` links to `e` and `e`'s old children link to `w`; nothing else changes. */
  lemma WrapParents(parent: map<Node, Node>, childNodes: map<Node, seq<Node>>, e: Node, w: Node)
    requires e in childNodes && w in childNodes && e != w && w !in parent
    requires ChildListMatches(parent, childNodes, e)
    ensures var p := Wrap(parent, childNodes, e, w).0;
            && p.Keys == parent.Keys + {w} && p[w] == e
            && forall c :: c in parent ==> p[c] == if parent[c] == e then w else parent[c]
  {
    MoveAllParents(parent, childNodes, e, w);
  }

  /**
   * `unwrapChildren` on the links: the child `w` at index `k` of `e` leaves the
   * tree and its children move, in order, to the end of `e`'s child list.
   */
  function Unwrap(parent: map<Node, Node>, childNodes: map<Node, seq<Node>>, e: Node, k: nat)
    : (r: (map<Node, Node>, map<Node, seq<Node>>))
    requires e in childNodes && k < |childNodes[e]| && childNodes[e][k] in childNodes && childNodes[e][k] != e
    ensures r.1.Keys == childNodes.Keys && r.1[childNodes[e][k]] == []
    ensures r.1[e] == Without(childNodes[e], k) + childNodes[childNodes[e][k]]
  {
    var w := childNodes[e][k];
    MoveAllChildLists(parent - {w}, childNodes[e := Without(childNodes[e], k)], w, e);
    MoveAll(parent - {w}, childNodes[e := Without(childNodes[e], k)], w, e)
  }

  /** After unwrapping, `w` is empty and detached and its children link to `e`. */
  lemma UnwrapShape(parent: map<Node, Node>, childNodes: map<Node, seq<Node>>, e: Node, k: nat)
    requires e in childNodes && k < |childNodes[e]|
    requires childNodes[e][k] in childNodes && childNodes[e][k] != e
    requires childNodes[e][k] in parent && parent[childNodes[e][k]] == e
    requires ChildListMatches(parent, childNodes, childNodes[e][k])
    ensures var E := childNodes[e];
            var w := E[k];
            var r := Unwrap(parent, childNodes, e, k);
            && r.1 == childNodes[e := E[..k] + E[k + 1..] + childNodes[w]][w := []]
            && r.0.Keys == parent.Keys - {w}
            && forall c :: c in r.0 ==> r.0[c] == if parent[c] == w then e else parent[c]
  {
    var E := childNodes[e];
    var w := E[k];
    var parent1, childNodes1 := parent - {w}, childNodes[e := Without(E, k)];
    MoveAllChildLists(parent1, childNodes1, w, e);
    MoveAllParents(parent1, childNodes1, w, e);
    assert w !in childNodes[w];
  }

  /** Wrapping the children of `e` into a fresh `w` and unwrapping them again restores every link. */
  lemma WrapThenUnwrapRestores(parent: map<Node, Node>, childNodes: map<Node, seq<Node>>, e: Node, w: Node)
    requires e in childNodes && w in childNodes && e != w && childNodes[w] == [] && w !in parent
    requires ChildListMatches(parent, childNodes, e) && ChildListMatches(parent, childNodes, w)
    ensures var r := Wrap(parent, childNodes, e, w);
            && r.1[e] == [w]
            && Unwrap(r.0, r.1, e, 0) == (parent, childNodes)
  {
    WrapChildLists(parent, childNodes, e, w);
    WrapParents(parent, childNodes, e, w);
    var r := Wrap(parent, childNodes, e, w);
    assert ChildListMatches(r.0, r.1, w) by {
      forall c | c in r.0 && r.0[c] == w
        ensures c in r.1[w]
      {
        assert c != w && c in parent && parent[c] == e;
      }
    }
    UnwrapShape(r.0, r.1, e, 0);
    var u := Unwrap(r.0, r.1, e, 0);
    assert [w][..0] + [w][1..] + childNodes[e] == childNodes[e];
    assert u.1 == childNodes;
    assert u.0 == parent;
  }

  class Document {
    var kind: map<Node, Kind>
    var parent: map<Node, Node>
    var childNodes: map<Node, seq<Node>>
    var view: map<Node, View>
    var className: map<Node, string>
    var uniqueHash: UniqueIds.Counters
    var nextNode: Node
    /** A rank that grows from parent to child; it shows the parent links reach a root. */
    ghost var depth: map<Node, nat>

    /**
     * The parent map and the child lists describe the same forest, and no node
     * is a child twice.
     */
    ghost predicate Valid()
      reads this
    {
      && Forest(kind, parent, childNodes, depth)
      && (forall n :: n in kind ==> n < nextNode)
      && UniqueIds.ValidCounters(uniqueHash)
    }

    constructor()
      ensures Valid()
      ensures kind == map[] && parent == map[] && childNodes == map[] && view == map[]
      ensures className == map[] && uniqueHash == map[]
    {
      kind, parent, childNodes, view, className, uniqueHash := map[], map[], map[], map[], map[], map[];
      nextNode := 0;
      depth := map[];
    }

    function ParentNode(n: Node): (r: Option<Node>)
      reads this
      requires Valid() && n in kind
      ensures r.Some? ==> r.value in kind && depth[r.value] < depth[n]
    {
      if n in parent then Some(parent[n]) else None
    }

    /** `parentElement`: the parent when it is an element. */
    function ParentElement(n: Node): (r: Option<Node>)
      reads this
      requires Valid() && n in kind
      ensures var chain := ElementChain(parent, kind, depth, n);
              r == if chain == [] then None else Some(chain[0])
    {
      if n in parent && kind[parent[n]].ElementNode? then Some(parent[n]) else None
    }

    /**
     * `_parents`: the node's ancestors from the topmost one down, the node
     * itself, and the node once more.
     */
    method Parents(node: Node) returns (nodes: seq<Node>)
      requires Valid() && node in kind
      ensures nodes == Lineage(parent, depth, node) + [node]
    {
      nodes := [node];
      var cur := Some(node);
      while cur.Some?
        invariant cur.Some? ==> cur.value in kind
        invariant (if cur.Some? then Lineage(parent, depth, cur.value) else []) + nodes
                  == Lineage(parent, depth, node) + [node]
        decreases if cur.Some? then depth[cur.value] + 1 else 0
      {
        var c := cur.value;
        assert Lineage(parent, depth, c) ==
               (if c in parent then Lineage(parent, depth, parent[c]) else []) + [c];
        nodes := [c] + nodes;
        cur := ParentNode(c);
      }
    }

    /**
     * `commonParent`: the nearest node that is an ancestor-or-self of both.
     * There is none when the nodes are in different trees, and none either
     * when the two nodes are the same node.
     */
    method CommonParent(n1: Node, n2: Node) returns (r: Option<Node>)
      requires Valid() && n1 in kind && n2 in kind
      ensures r.None? <==> n1 == n2 || Root(parent, depth, n1) != Root(parent, depth, n2)
      ensures r.Some? ==> r.value in kind && IsCommonAncestor(parent, depth, r.value, n1, n2)
      ensures r.Some? ==> forall x :: IsCommonAncestor(parent, depth, x, n1, n2) ==>
                            x in Lineage(parent, depth, r.value)
    {
      var parents1 := Parents(n1);
      var parents2 := Parents(n2);
      if parents1[0] != parents2[0] {
        return None;
      }
      var i := 0;
      while i < |parents1|
        invariant 0 <= i <= |parents1| && i <= |parents2|
        invariant parents1[..i] == parents2[..i]
      {
        if i >= |parents2| || parents1[i] != parents2[i] {
          DivergencePoint(parent, depth, n1, n2, i);
          assert n1 != n2;
          return Some(parents1[i - 1]);
        }
        assert parents1[..i + 1] == parents2[..i + 1] by {
          assert parents1[..i + 1] == parents1[..i] + [parents1[i]];
          assert parents2[..i + 1] == parents2[..i] + [parents2[i]];
        }
        i := i + 1;
      }
      assert parents1 == parents2[..|parents1|];
      NoDivergence(parent, depth, n1, n2);
      return None;
    }

    /**
     * `findParentViewOfType`: the view of the nearest element ancestor whose
     * view has the given type, walking `parentElement` links only.
     */
    method FindParentViewOfType(element: Node, viewType: string) returns (r: Option<View>)
      requires Valid() && element in kind
      ensures var chain := ElementChain(parent, kind, depth, element);
              && (r.None? <==> forall j :: 0 <= j < |chain| ==> !HasViewOfType(chain[j], viewType))
              && (r.Some? ==> exists j :: 0 <= j < |chain| && HasViewOfType(chain[j], viewType)
                                && r.value == view[chain[j]]
                                && forall k :: 0 <= k < j ==> !HasViewOfType(chain[k], viewType))
    {
      ghost var chain: seq<Node> := ElementChain(parent, kind, depth, element);
      var p := ParentElement(element);
      var found := false;
      ghost var j: nat := 0;
      while p.Some? && !found
        invariant 0 <= j <= |chain|
        invariant p == if j < |chain| then Some(chain[j]) else None
        invariant p.Some? ==> p.value in kind
        invariant forall k :: 0 <= k < j ==> !HasViewOfType(chain[k], viewType)
        invariant found ==> p.Some? && HasViewOfType(chain[j], viewType)
        decreases |chain| - j, !found
      {
        ElementChainShape(parent, kind, depth, element, j);
        if p.value in view && view[p.value].viewType == viewType {
          found := true;
        } else {
          p := ParentElement(p.value);
          j := j + 1;
        }
      }
      if found {
        assert j < |chain| && HasViewOfType(chain[j], viewType) && view[p.value] == view[chain[j]];
        r := Some(view[p.value]);
        assert !(forall k :: 0 <= k < |chain| ==> !HasViewOfType(chain[k], viewType));
      } else {
        assert j == |chain|;
        r := None;
        assert forall k :: 0 <= k < |chain| ==> !HasViewOfType(chain[k], viewType);
      }
      assert chain == ElementChain(parent, kind, depth, element);
    }

    ghost predicate HasViewOfType(n: Node, viewType: string)
      reads this
    {
      n in view && view[n].viewType == viewType
    }

    /** `ownerDocument.createElement(tag)`: a new element outside the tree. */
    method CreateElement(tag: string) returns (n: Node)
      requires Valid()
      modifies this
      ensures Valid()
      ensures n == old(nextNode) && n !in old(kind) && nextNode == n + 1
      ensures kind == old(kind)[n := ElementNode(tag)]
      ensures childNodes == old(childNodes)[n := []]
      ensures depth == old(depth)[n := 0]
      ensures parent == old(parent) && view == old(view)
      ensures className == old(className) && uniqueHash == old(uniqueHash)
    {
      n := nextNode;
      AddNodeKeepsForest(kind, parent, childNodes, depth, n, ElementNode(tag));
      kind := kind[n := ElementNode(tag)];
      childNodes := childNodes[n := []];
      depth := depth[n := 0];
      nextNode := nextNode + 1;
    }

    /** `p.removeChild(p.childNodes[k])`. */
    method RemoveChildAt(p: Node, k: nat)
      requires Valid() && p in kind && k < |childNodes[p]|
      modifies this
      ensures Valid()
      ensures childNodes == old(childNodes)[p := Without(old(childNodes[p]), k)]
      ensures parent == old(parent) - {old(childNodes[p][k])}
      ensures kind == old(kind) && depth == old(depth) && view == old(view) && nextNode == old(nextNode)
      ensures className == old(className) && uniqueHash == old(uniqueHash)
    {
      RemoveKeepsLinks(parent, childNodes, p, k);
      parent := parent - {childNodes[p][k]};
      childNodes := childNodes[p := Without(childNodes[p], k)];
    }

    /** `p.appendChild(c)` for a node `c` that is in no tree. */
    method AppendDetached(p: Node, c: Node)
      requires Valid() && p in kind && c in kind && c !in parent && depth[p] < depth[c]
      modifies this
      ensures Valid()
      ensures childNodes == old(childNodes)[p := old(childNodes[p]) + [c]]
      ensures parent == old(parent)[c := p]
      ensures kind == old(kind) && depth == old(depth) && view == old(view) && nextNode == old(nextNode)
      ensures className == old(className) && uniqueHash == old(uniqueHash)
    {
      AppendKeepsLinks(parent, childNodes, p, c);
      parent := parent[c := p];
      childNodes := childNodes[p := childNodes[p] + [c]];
    }

    /** `to.appendChild(from.childNodes[0])`: the node leaves `from` and goes last into `to`. */
    method MoveFirstChild(from: Node, to: Node)
      requires Valid() && from in kind && to in kind && from != to
      requires |childNodes[from]| > 0 && depth[to] < depth[childNodes[from][0]]
      modifies this
      ensures Valid()
      ensures (parent, childNodes) == MoveFirst(old(parent), old(childNodes), from, to)
      ensures kind == old(kind) && depth == old(depth) && view == old(view) && nextNode == old(nextNode)
      ensures className == old(className) && uniqueHash == old(uniqueHash)
    {
      var c := childNodes[from][0];
      MoveKeepsForest(kind, parent, childNodes, depth, from, to);
      parent := parent[c := to];
      childNodes := childNodes[from := childNodes[from][1..]][to := childNodes[to] + [c]];
    }

    /**
     * `while (from.childNodes.length) to.appendChild(from.childNodes[0])`: the
     * children of `from` move, in order, to the end of `to`'s child list.
     */
    method MoveAllChildren(from: Node, to: Node)
      requires Valid() && from in kind && to in kind && from != to
      requires forall c :: c in childNodes[from] ==> depth[to] < depth[c]
      modifies this
      ensures Valid()
      ensures (parent, childNodes) == MoveAll(old(parent), old(childNodes), from, to)
      ensures kind == old(kind) && depth == old(depth) && view == old(view) && nextNode == old(nextNode)
      ensures className == old(className) && uniqueHash == old(uniqueHash)
    {
      while |childNodes[from]| > 0
        invariant Valid()
        invariant kind == old(kind) && depth == old(depth) && view == old(view) && nextNode == old(nextNode)
        invariant className == old(className) && uniqueHash == old(uniqueHash)
        invariant forall c :: c in childNodes[from] ==> depth[to] < depth[c]
        invariant MoveAll(parent, childNodes, from, to) == MoveAll(old(parent), old(childNodes), from, to)
        decreases |childNodes[from]|
      {
        assert forall c :: c in childNodes[from][1..] ==> c in childNodes[from];
        MoveFirstChild(from, to);
      }
    }

    /**
     * `wrapChildren`: all children of `element`, in order, move into a new
     * element that becomes `element`'s only child (see `WrapChildLists` and
     * `WrapParents` for the resulting links).
     */
    method WrapChildren(element: Node, tag: Option<string>) returns (wrapper: Node)
      requires Valid() && element in kind
      modifies this
      ensures Valid()
      ensures wrapper !in old(kind) && kind == old(kind)[wrapper := ElementNode(WrapperTag(tag))]
      ensures wrapper == old(nextNode) && nextNode == old(nextNode) + 1
      ensures (parent, childNodes) == Wrap(old(parent), old(childNodes)[wrapper := []], element, wrapper)
      ensures view == old(view) && className == old(className) && uniqueHash == old(uniqueHash)
    {
      ChildListIsParentLinks(parent, childNodes, element);
      wrapper := CreateElement(WrapperTag(tag));
      NewNodeHasNoChildren(parent, childNodes, wrapper);
      RerankKeepsOrder(parent, depth, wrapper, element);
      depth := Rerank(depth, wrapper, element);
      ghost var parent1, childNodes1 := parent, childNodes;
      assert parent1 == old(parent) && childNodes1 == old(childNodes)[wrapper := []];
      MoveAllChildren(element, wrapper);
      MoveAllParents(parent1, childNodes1, element, wrapper);
      ghost var moved := (parent, childNodes);
      AppendDetached(element, wrapper);
      assert (parent, childNodes) == (moved.0[wrapper := element], moved.1[element := moved.1[element] + [wrapper]]);
    }

    /**
     * `unwrapChildren`: the first element child of `element` is removed and its
     * children are appended, in order, to `element` (see `UnwrapShape`).
     * Without an element child the call fails (`removeChild(undefined)`
     * throws) and nothing changes.
     */
    method UnwrapChildren(element: Node) returns (ok: bool)
      requires Valid() && element in kind
      modifies this
      ensures Valid()
      ensures ok <==> FirstElementIndex(old(childNodes[element]), old(kind)).Some?
      ensures !ok ==> unchanged(this)
      ensures nextNode == old(nextNode)
      ensures ok ==>
                var k := FirstElementIndex(old(childNodes[element]), old(kind)).value;
                && old(childNodes[element][k]) in old(childNodes) && old(childNodes[element][k]) != element
                && (parent, childNodes) == Unwrap(old(parent), old(childNodes), element, k)
      ensures kind == old(kind) && depth == old(depth) && view == old(view)
      ensures className == old(className) && uniqueHash == old(uniqueHash)
    {
      var k := FirstElementIndex(childNodes[element], kind);
      if k.None? {
        return false;
      }
      var wrapper := childNodes[element][k.value];
      ChildListIsParentLinks(parent, childNodes, wrapper);
      assert forall c :: c in childNodes[wrapper] ==> depth[element] < depth[c];
      RemoveChildAt(element, k.value);
      MoveAllChildren(wrapper, element);
      return true;
    }

    function ClassOf(e: Node): string
      reads this
    {
      if e in className then className[e] else ""
    }

    /** `addClass`. */
    method AddClass(e: Node, name: string)
      requires Valid() && e in kind && kind[e].ElementNode?
      modifies this
      ensures Valid()
      ensures className == old(className)[e := ClassNames.WithClass(old(ClassOf(e)), name)]
      ensures ClassNames.IsClassName(name) ==> ClassNames.HasClass(ClassOf(e), name)
      ensures kind == old(kind) && parent == old(parent) && childNodes == old(childNodes)
      ensures depth == old(depth) && view == old(view) && uniqueHash == old(uniqueHash)
    {
      className := className[e := ClassNames.WithClass(ClassOf(e), name)];
      if ClassNames.IsClassName(name) {
        ClassNames.AddedClassPresent(old(ClassOf(e)), name);
      }
    }

    /** `removeClass`. */
    method RemoveClass(e: Node, name: string)
      requires Valid() && e in kind && kind[e].ElementNode? && ClassNames.IsClassName(name)
      modifies this
      ensures Valid()
      ensures className == old(className)[e := ClassNames.WithoutClass(old(ClassOf(e)), name)]
      ensures kind == old(kind) && parent == old(parent) && childNodes == old(childNodes)
      ensures depth == old(depth) && view == old(view) && uniqueHash == old(uniqueHash)
    {
      className := className[e := ClassNames.WithoutClass(ClassOf(e), name)];
    }

    /** `uniqueID(prefix, document)`. */
    method UniqueId(prefix: Option<string>) returns (id: UniqueIds.Id)
      requires Valid()
      modifies this
      ensures Valid()
      ensures (id, uniqueHash) == UniqueIds.Issue(old(uniqueHash), UniqueIds.ObjectPrototypeNames, prefix)
      ensures kind == old(kind) && parent == old(parent) && childNodes == old(childNodes)
      ensures depth == old(depth) && view == old(view) && className == old(className)
    {
      var r := UniqueIds.Issue(uniqueHash, UniqueIds.ObjectPrototypeNames, prefix);
      id := r.0;
      uniqueHash := r.1;
    }
  }
}
