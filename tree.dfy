/**
 * Ancestor chains over a parent map. A ghost rank (`depth`) that strictly
 * grows from a parent to its child is the witness that following parentNode
 * always reaches a root.
 */
module Tree {

  type Node = nat

  datatype Kind = ElementNode(tag: string) | TextNode | DocumentNode

  /** Every parent link goes to a node of strictly smaller rank. */
  ghost predicate Ranked(parent: map<Node, Node>, depth: map<Node, nat>)
  {
    forall c :: c in parent ==> c in depth && parent[c] in depth && depth[parent[c]] < depth[c]
  }

  /** The inclusive ancestors of `n`, root first and `n` last. */
  ghost function Lineage(parent: map<Node, Node>, depth: map<Node, nat>, n: Node): (l: seq<Node>)
    requires Ranked(parent, depth) && n in depth
    ensures |l| >= 1 && l[|l| - 1] == n
    decreases depth[n]
  {
    if n in parent then Lineage(parent, depth, parent[n]) + [n] else [n]
  }

  ghost function Root(parent: map<Node, Node>, depth: map<Node, nat>, n: Node): Node
    requires Ranked(parent, depth) && n in depth
  {
    Lineage(parent, depth, n)[0]
  }

  /** `x` is an ancestor-or-self of both nodes. */
  ghost predicate IsCommonAncestor(parent: map<Node, Node>, depth: map<Node, nat>, x: Node, n1: Node, n2: Node)
    requires Ranked(parent, depth) && n1 in depth && n2 in depth
  {
    x in Lineage(parent, depth, n1) && x in Lineage(parent, depth, n2)
  }

  /**
   * A lineage starts at a root, each entry is the parent of the next, and the
   * rank strictly increases along it (so no node occurs twice).
   */
  lemma {:induction false} LineageShape(parent: map<Node, Node>, depth: map<Node, nat>, n: Node)
    requires Ranked(parent, depth) && n in depth
    ensures var l := Lineage(parent, depth, n);
            && l[0] !in parent
            && (forall j :: 0 <= j < |l| ==> l[j] in depth)
            && (forall j :: 1 <= j < |l| ==> l[j] in parent && parent[l[j]] == l[j - 1])
            && (forall i, j :: 0 <= i < j < |l| ==> depth[l[i]] < depth[l[j]])
    decreases depth[n]
  {
    if n in parent {
      LineageShape(parent, depth, parent[n]);
      var l := Lineage(parent, depth, n);
      var up := Lineage(parent, depth, parent[n]);
      assert l == up + [n];
      forall i, j | 0 <= i < j < |l| ensures depth[l[i]] < depth[l[j]] {
        if j == |l| - 1 {
          assert up[|up| - 1] == parent[n];
          if i < |up| - 1 { assert depth[up[i]] < depth[up[|up| - 1]]; }
        }
      }
    }
  }

  /** The lineage of an entry of a lineage is the prefix of that lineage up to the entry. */
  lemma {:induction false} LineagePrefix(parent: map<Node, Node>, depth: map<Node, nat>, n: Node, j: nat)
    requires Ranked(parent, depth) && n in depth
    requires j < |Lineage(parent, depth, n)|
    ensures Lineage(parent, depth, n)[j] in depth
    ensures Lineage(parent, depth, Lineage(parent, depth, n)[j]) == Lineage(parent, depth, n)[..j + 1]
    decreases depth[n]
  {
    var l := Lineage(parent, depth, n);
    LineageShape(parent, depth, n);
    if j == |l| - 1 {
      assert l[..j + 1] == l;
    } else {
      var up := Lineage(parent, depth, parent[n]);
      assert l == up + [n];
      LineagePrefix(parent, depth, parent[n], j);
      assert l[..j + 1] == up[..j + 1];
    }
  }

  /**
   * Where the two root-first chains (each ending with its node repeated) first
   * differ, the entry just before is the nearest common ancestor-or-self: it is
   * on both lineages, and every node on both lineages is one of its own
   * ancestors-or-self.
   */
  lemma DivergencePoint(parent: map<Node, Node>, depth: map<Node, nat>, n1: Node, n2: Node, i: nat)
    requires Ranked(parent, depth) && n1 in depth && n2 in depth
    requires var c1 := Lineage(parent, depth, n1) + [n1];
             var c2 := Lineage(parent, depth, n2) + [n2];
             1 <= i < |c1| && i <= |c2| && c1[..i] == c2[..i] && (i == |c2| || c1[i] != c2[i])
    ensures var a := (Lineage(parent, depth, n1) + [n1])[i - 1];
            && a in depth
            && IsCommonAncestor(parent, depth, a, n1, n2)
            && forall x :: IsCommonAncestor(parent, depth, x, n1, n2) ==> x in Lineage(parent, depth, a)
  {
    var l1, l2 := Lineage(parent, depth, n1), Lineage(parent, depth, n2);
    var c1, c2 := l1 + [n1], l2 + [n2];
    LineageShape(parent, depth, n1);
    LineageShape(parent, depth, n2);
    var a := c1[i - 1];
    assert a == l1[i - 1];
    assert c2[i - 1] == a by { assert c1[..i][i - 1] == c2[..i][i - 1]; }
    if i - 1 < |l2| {
      assert a == l2[i - 1];
    } else {
      assert a == n2 == l2[|l2| - 1];
    }
    LineagePrefix(parent, depth, n1, i - 1);
    forall x | IsCommonAncestor(parent, depth, x, n1, n2)
      ensures x in Lineage(parent, depth, a)
    {
      CommonAncestorBeforeDivergence(parent, depth, n1, n2, i, x);
    }
  }

  /** A node on both lineages sits at one index in both, and that index precedes the divergence. */
  lemma CommonAncestorBeforeDivergence(parent: map<Node, Node>, depth: map<Node, nat>, n1: Node, n2: Node, i: nat, x: Node)
    requires Ranked(parent, depth) && n1 in depth && n2 in depth
    requires var c1 := Lineage(parent, depth, n1) + [n1];
             var c2 := Lineage(parent, depth, n2) + [n2];
             1 <= i < |c1| && i <= |c2| && c1[..i] == c2[..i] && (i == |c2| || c1[i] != c2[i])
    requires IsCommonAncestor(parent, depth, x, n1, n2)
    ensures x in Lineage(parent, depth, n1)[..i]
  {
    var l1, l2 := Lineage(parent, depth, n1), Lineage(parent, depth, n2);
    var c1, c2 := l1 + [n1], l2 + [n2];
    var k1 :| 0 <= k1 < |l1| && l1[k1] == x;
    var k2 :| 0 <= k2 < |l2| && l2[k2] == x;
    LineagePrefix(parent, depth, n1, k1);
    LineagePrefix(parent, depth, n2, k2);
    assert |l1[..k1 + 1]| == |l2[..k2 + 1]|;
    assert k1 < i;
    assert l1[..i][k1] == x;
  }

  /** Chains that never diverge belong to the same node. */
  lemma NoDivergence(parent: map<Node, Node>, depth: map<Node, nat>, n1: Node, n2: Node)
    requires Ranked(parent, depth) && n1 in depth && n2 in depth
    requires var c1 := Lineage(parent, depth, n1) + [n1];
             var c2 := Lineage(parent, depth, n2) + [n2];
             |c1| <= |c2| && c1 == c2[..|c1|]
    ensures n1 == n2
  {
    var l1, l2 := Lineage(parent, depth, n1), Lineage(parent, depth, n2);
    var c1, c2 := l1 + [n1], l2 + [n2];
    LineageShape(parent, depth, n2);
    var m := |l1|;
    assert c2[m - 1] == n1 && c2[m] == n1 by {
      assert c1[m - 1] == n1 && c1[m] == n1;
      assert c2[..|c1|][m - 1] == c1[m - 1] && c2[..|c1|][m] == c1[m];
    }
    assert m == |l2|;
    assert n2 == c2[m];
  }

  /** The nearest element ancestors, nearest first: the chain `parentElement` walks. */
  ghost function ElementChain(parent: map<Node, Node>, kind: map<Node, Kind>, depth: map<Node, nat>, n: Node): seq<Node>
    requires Ranked(parent, depth) && depth.Keys == kind.Keys && n in depth
    decreases depth[n]
  {
    if n in parent && kind[parent[n]].ElementNode? then [parent[n]] + ElementChain(parent, kind, depth, parent[n])
    else []
  }

  /**
   * The element chain lists strict ancestors, each the parent of the one before
   * it, and the rest of the chain after an entry is that entry's own chain.
   */
  lemma {:induction false} ElementChainShape(parent: map<Node, Node>, kind: map<Node, Kind>, depth: map<Node, nat>, n: Node, j: nat)
    requires Ranked(parent, depth) && depth.Keys == kind.Keys && n in depth
    requires j < |ElementChain(parent, kind, depth, n)|
    ensures var chain := ElementChain(parent, kind, depth, n);
            && chain[j] in depth && kind[chain[j]].ElementNode?
            && depth[chain[j]] < depth[n]
            && chain[j] in Lineage(parent, depth, n)
            && ElementChain(parent, kind, depth, chain[j]) == chain[j + 1..]
    decreases depth[n]
  {
    var chain := ElementChain(parent, kind, depth, n);
    var p := parent[n];
    assert chain == [p] + ElementChain(parent, kind, depth, p);
    assert Lineage(parent, depth, n) == Lineage(parent, depth, p) + [n];
    if j == 0 {
      assert chain[1..] == ElementChain(parent, kind, depth, p);
    } else {
      ElementChainShape(parent, kind, depth, p, j - 1);
      assert chain[j + 1..] == ElementChain(parent, kind, depth, p)[j..];
    }
  }
}
