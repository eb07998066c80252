/**
 Flat list to forest and back: `transformTozTreeFormat` and `transformToArrayFormat` of
 static/zTree3/js/jquery.ztree.core.js.
 */
module NodeForest {
  import opened Basics

  class TreeNode {
    const id: int
    const pId: int
    /** Absent children are an empty list. */
    var children: seq<TreeNode>
  }

  // ---------- who is whose child ----------

  /** The last node of the list with the given id: what the lookup table holds in the end. */
  function Named(ns: seq<TreeNode>, id: int): (r: Option<TreeNode>)
    ensures r.Some? ==> r.value in ns && r.value.id == id
    ensures r.None? <==> forall n <- ns :: n.id != id
  {
    if ns == [] then None
    else if ns[|ns| - 1].id == id then Some(ns[|ns| - 1])
    else Named(ns[..|ns| - 1], id)
  }

  /** The node that `n` is put under; a node that names itself or nobody is a root. */
  function Owner(ns: seq<TreeNode>, n: TreeNode): (r: Option<TreeNode>)
    ensures r.Some? ==> r.value in ns
  {
    if n.id == n.pId then None else Named(ns, n.pId)
  }

  /** The owner in terms of the identifiers: the last node that has the one named, if it is not the node's own. */
  lemma OwnerIs(ns: seq<TreeNode>, n: TreeNode, p: TreeNode)
    ensures Owner(ns, n) == Some(p)
       <==> n.id != n.pId && exists i :: 0 <= i < |ns| && ns[i] == p && LastWith(ns, i, n.pId)
    ensures Owner(ns, n) == None <==> n.id == n.pId || forall m <- ns :: m.id != n.pId
  {
    hide Named;
    NamedIsLast(ns, n.pId);
    if i :| 0 <= i < |ns| && LastWith(ns, i, n.pId) {
      assert ns[i] in ns;
    }
  }

  predicate LastWith(ns: seq<TreeNode>, i: nat, id: int)
    requires i < |ns|
  {
    ns[i].id == id && forall j :: i < j < |ns| ==> ns[j].id != id
  }

  lemma {:induction false} NamedIsLast(ns: seq<TreeNode>, id: int)
    ensures forall i :: 0 <= i < |ns| && LastWith(ns, i, id) ==> Named(ns, id) == Some(ns[i])
    ensures Named(ns, id).Some? ==> exists i :: 0 <= i < |ns| && ns[i] == Named(ns, id).value && LastWith(ns, i, id)
  {
    if ns != [] {
      var front, k := ns[..|ns| - 1], |ns| - 1;
      NamedIsLast(front, id);
      if ns[k].id == id {
        assert LastWith(ns, k, id);
      } else {
        forall i | 0 <= i < k ensures LastWith(ns, i, id) <==> LastWith(front, i, id) {
          assert forall j :: i < j < k ==> front[j] == ns[j];
        }
      }
    }
  }

  /** If no identifier occurs twice: who is whose child, and who is a root. */
  lemma ForestByIds(ns: seq<TreeNode>)
    requires IsForestOf(ns) && forall i, j :: 0 <= i < j < |ns| ==> ns[i].id != ns[j].id
    ensures forall n <- ns, p <- ns :: n in p.children <==> n.pId == p.id && n.id != n.pId
    ensures forall n <- ns :: n in Roots(ns) <==> n.id == n.pId || forall m <- ns :: m.id != n.pId
  {
    hide Owner, OwnedBy;
    forall n <- ns, p <- ns ensures n in p.children <==> n.pId == p.id && n.id != n.pId {
      OwnerIs(ns, n, p);
      OwnedByMember(ns, n);
      var i :| 0 <= i < |ns| && ns[i] == p;
      assert n.pId == p.id ==> LastWith(ns, i, n.pId);
    }
    forall n <- ns ensures n in Roots(ns) <==> n.id == n.pId || forall m <- ns :: m.id != n.pId {
      OwnerIs(ns, n, n);
      OwnedByMember(ns, n);
    }
  }

  /** The members of `xs` put under `o`, in order; with `None`, the roots. */
  function OwnedBy(ns: seq<TreeNode>, xs: seq<TreeNode>, o: Option<TreeNode>): (r: seq<TreeNode>)
    ensures forall x <- r :: x in xs && Owner(ns, x) == o
  {
    if xs == [] then []
    else
      var front, last := xs[..|xs| - 1], xs[|xs| - 1];
      OwnedBy(ns, front, o) + if Owner(ns, last) == o then [last] else []
  }

  function Kids(ns: seq<TreeNode>, p: TreeNode): seq<TreeNode> { OwnedBy(ns, ns, Some(p)) }

  function Roots(ns: seq<TreeNode>): seq<TreeNode> { OwnedBy(ns, ns, None) }

  ghost predicate IsForestOf(ns: seq<TreeNode>)
    reads ns
  {
    forall n <- ns :: n.children == Kids(ns, n)
  }

  /** The lookup table of `transformTozTreeFormat`. */
  method Table(sNodes: seq<TreeNode>) returns (tmpMap: map<int, TreeNode>)
    ensures forall id :: id in tmpMap <==> Named(sNodes, id).Some?
    ensures forall id <- tmpMap :: tmpMap[id] == Named(sNodes, id).value
  {
    tmpMap := map[];
    for i := 0 to |sNodes|
      invariant forall id :: id in tmpMap <==> Named(sNodes[..i], id).Some?
      invariant forall id <- tmpMap :: tmpMap[id] == Named(sNodes[..i], id).value
    {
      assert sNodes[..i + 1][..i] == sNodes[..i];
      tmpMap := tmpMap[sNodes[i].id := sNodes[i]];
    }
    assert sNodes[..|sNodes|] == sNodes;
  }

  /** `transformTozTreeFormat`: every node is appended to the children of its owner, or to the result. */
  method TransformToZTreeFormat(sNodes: seq<TreeNode>) returns (r: seq<TreeNode>)
    modifies sNodes
    ensures r == Roots(sNodes) && forall n <- sNodes :: n.children == old(n.children) + Kids(sNodes, n)
  {
    hide Named, OwnedBy;
    r := [];
    var tmpMap := Table(sNodes);
    NothingOwned(sNodes);
    for i := 0 to |sNodes|
      invariant r == OwnedBy(sNodes, sNodes[..i], None)
      invariant forall n <- sNodes :: n.children == old(n.children) + OwnedBy(sNodes, sNodes[..i], Some(n))
    {
      var n := sNodes[i];
      OneMoreOwned(sNodes, i);
      if n.pId in tmpMap && n.id != n.pId {
        var parent := tmpMap[n.pId];
        parent.children := parent.children + [n];
      } else {
        r := r + [n];
      }
    }
    assert sNodes[..|sNodes|] == sNodes;
  }

  lemma NothingOwned(ns: seq<TreeNode>)
    ensures forall o: Option<TreeNode> :: OwnedBy(ns, ns[..0], o) == []
  {}

  lemma OneMoreOwned(ns: seq<TreeNode>, i: nat)
    requires i < |ns|
    ensures forall o: Option<TreeNode> ::
              OwnedBy(ns, ns[..i + 1], o) == OwnedBy(ns, ns[..i], o) + if Owner(ns, ns[i]) == o then [ns[i]] else []
  {
    assert ns[..i + 1][..i] == ns[..i];
  }

  // ---------- depth ----------

  /** `n` is `d` steps below a root. */
  predicate AtDepth(ns: seq<TreeNode>, n: TreeNode, d: nat) {
    match Owner(ns, n)
    case None => d == 0
    case Some(p) => d > 0 && AtDepth(ns, p, d - 1)
  }

  /** The chain of owners ends; otherwise it is caught in a cycle. */
  ghost predicate IsRooted(ns: seq<TreeNode>, n: TreeNode) { exists d: nat :: AtDepth(ns, n, d) }

  lemma {:induction false} DepthUnique(ns: seq<TreeNode>, n: TreeNode, d: nat, e: nat)
    requires AtDepth(ns, n, d) && AtDepth(ns, n, e)
    ensures d == e
  {
    if d > 0 && e > 0 {
      DepthUnique(ns, Owner(ns, n).value, d - 1, e - 1);
    }
  }

  ghost predicate DepthBound(ns: seq<TreeNode>, xs: seq<TreeNode>, bound: nat) {
    forall n, d: nat :: n in xs && AtDepth(ns, n, d) ==> d <= bound
  }

  lemma {:induction false} DepthBoundExists(ns: seq<TreeNode>, xs: seq<TreeNode>) returns (bound: nat)
    ensures DepthBound(ns, xs, bound)
  {
    hide AtDepth;
    if xs == [] {
      bound := 0;
    } else {
      var front, last := xs[..|xs| - 1], xs[|xs| - 1];
      bound := DepthBoundExists(ns, front);
      if d: nat :| AtDepth(ns, last, d) {
        bound := if d > bound then d else bound;
        forall n, e: nat | n in xs && AtDepth(ns, n, e) ensures e <= bound {
          if n == last {
            DepthUnique(ns, n, d, e);
          } else {
            assert n in front;
          }
        }
      } else {
        forall n, e: nat | n in xs && AtDepth(ns, n, e) ensures e <= bound {
          assert n in front;
        }
      }
    }
  }

  // ---------- back to a list ----------

  /** Every node followed by its descendants; the nodes are at depth `bound - d`. */
  function Preorder(ns: seq<TreeNode>, nodes: seq<TreeNode>, d: nat): seq<TreeNode>
    decreases d, |nodes|
  {
    if nodes == [] then []
    else
      var front, last := nodes[..|nodes| - 1], nodes[|nodes| - 1];
      Preorder(ns, front, d) + [last] + if d == 0 then [] else Preorder(ns, Kids(ns, last), d - 1)
  }

  /** Siblings at one depth: nodes of the list that all have the owner `q`. */
  ghost predicate Siblings(ns: seq<TreeNode>, nodes: seq<TreeNode>, q: Option<TreeNode>, depth: nat) {
    forall n <- nodes :: n in ns && Owner(ns, n) == q && AtDepth(ns, n, depth)
  }

  /** The nodes and all below them are in `S`, at most `d` levels of them: no node is below itself. */
  ghost predicate Nested(S: set<TreeNode>, nodes: seq<TreeNode>, d: nat)
    reads S
    decreases d
  {
    forall n <- nodes :: n in S && if d == 0 then n.children == [] else Nested(S, n.children, d - 1)
  }

  /** Every node followed by all below it. */
  ghost function Flattened(S: set<TreeNode>, nodes: seq<TreeNode>, d: nat): seq<TreeNode>
    requires Nested(S, nodes, d)
    reads S
    decreases d, |nodes|
  {
    if nodes == [] then []
    else
      var front, last := nodes[..|nodes| - 1], nodes[|nodes| - 1];
      Flattened(S, front, d) + [last] + if d == 0 then [] else Flattened(S, last.children, d - 1)
  }

  /** A list of nested nodes, one node at a time. */
  lemma NestedPrefix(S: set<TreeNode>, nodes: seq<TreeNode>, i: nat, d: nat)
    requires Nested(S, nodes, d) && i <= |nodes|
    ensures Nested(S, nodes[..i], d) && (i == 0 ==> Flattened(S, nodes[..i], d) == [])
    ensures i < |nodes| ==>
              && Nested(S, [nodes[i]], d) && Nested(S, nodes[..i + 1], d)
              && Flattened(S, nodes[..i + 1], d) == Flattened(S, nodes[..i], d) + Flattened(S, [nodes[i]], d)
  {
    if i < |nodes| {
      var one := [nodes[i]];
      assert nodes[..i + 1][..i] == nodes[..i];
      assert one[..0] == [];
    }
  }

  /** The argument of `transformToArrayFormat`: a list of nodes or just one. */
  datatype Nodes = List(list: seq<TreeNode>) | One(node: TreeNode) {
    function All(): seq<TreeNode> { if List? then list else [node] }
  }

  /** `transformToArrayFormat`, on any nested nodes. */
  method TransformToArrayFormat(nodes: Nodes, ghost S: set<TreeNode>, ghost d: nat) returns (r: seq<TreeNode>)
    requires Nested(S, nodes.All(), d)
    ensures r == Flattened(S, nodes.All(), d)
    decreases d, 1
  {
    hide Nested, Flattened;
    if nodes.One? {
      r := ListNode(nodes.node, S, d);
      return;
    }
    r := [];
    var list := nodes.list;
    NestedPrefix(S, list, 0, d);
    for i := 0 to |list|
      invariant Nested(S, list[..i], d) && r == Flattened(S, list[..i], d)
    {
      NestedPrefix(S, list, i, d);
      var part := ListNode(list[i], S, d);
      r := r + part;
    }
    assert list[..|list|] == list;
  }

  /** One node, and what is below it. */
  method ListNode(node: TreeNode, ghost S: set<TreeNode>, ghost d: nat) returns (r: seq<TreeNode>)
    requires Nested(S, [node], d)
    ensures r == Flattened(S, [node], d) == [node] + if d == 0 then [] else Flattened(S, node.children, d - 1)
    decreases d, 0
  {
    r := [node];
    if |node.children| > 0 {
      var rest := TransformToArrayFormat(List(node.children), S, d - 1);
      r := r + rest;
    }
    assert [node][..0] == [];
  }

  /** A node is listed if and only if it is one of the given ones or listed below one of them. */
  lemma {:induction false} FlattenedMembers(S: set<TreeNode>, nodes: seq<TreeNode>, d: nat, x: TreeNode)
    requires Nested(S, nodes, d)
    ensures x in Flattened(S, nodes, d)
       <==> x in nodes || (d > 0 && exists n <- nodes :: x in Flattened(S, n.children, d - 1))
  {
    if nodes != [] {
      var front, last := nodes[..|nodes| - 1], nodes[|nodes| - 1];
      FlattenedMembers(S, front, d, x);
      assert nodes == front + [last];
    }
  }

  lemma NestedOneMore(S: set<TreeNode>, nodes: seq<TreeNode>, d: nat)
    requires nodes != []
    requires var front, last := nodes[..|nodes| - 1], nodes[|nodes| - 1];
      Nested(S, front, d) && last in S && if d == 0 then last.children == [] else Nested(S, last.children, d - 1)
    ensures Nested(S, nodes, d)
  {
    assert nodes == nodes[..|nodes| - 1] + [nodes[|nodes| - 1]];
  }

  /** The forest built from a list is nested, and flattening it follows the owners. */
  lemma {:induction false} FlattenedForest(ns: seq<TreeNode>, nodes: seq<TreeNode>, bound: nat, d: nat,
                                           q: Option<TreeNode>)
    requires IsForestOf(ns) && DepthBound(ns, ns, bound) && d <= bound && Siblings(ns, nodes, q, bound - d)
    ensures Nested(Members(ns), nodes, d) && Flattened(Members(ns), nodes, d) == Preorder(ns, nodes, d)
    decreases d, |nodes|
  {
    hide AtDepth, OwnedBy, Owner, DepthBound, Siblings, Nested, Preorder;
    NothingNested(ns, d);
    NothingListed(ns, d);
    if nodes != [] {
      var front, last := nodes[..|nodes| - 1], nodes[|nodes| - 1];
      FrontSiblings(ns, nodes, q, bound - d);
      FlattenedForest(ns, front, bound, d, q);
      KidsAreSiblings(ns, last, bound, d);
      PreorderIs(ns, nodes, d);
      if d > 0 {
        FlattenedForest(ns, last.children, bound, d - 1, Some(last));
      }
      NestedOneMore(Members(ns), nodes, d);
    }
  }

  lemma NothingNested(ns: seq<TreeNode>, d: nat)
    ensures Nested(Members(ns), [], d)
  {}

  function Members(ns: seq<TreeNode>): set<TreeNode> { set n | n in ns }

  lemma Member<T>(s: seq<T>) returns (x: T)
    requires s != []
    ensures x in s
  {
    x := s[0];
  }

  /** The children of a node are siblings one step further down; the deepest nodes have none. */
  lemma KidsAreSiblings(ns: seq<TreeNode>, n: TreeNode, bound: nat, d: nat)
    requires DepthBound(ns, ns, bound) && d <= bound && n in ns && AtDepth(ns, n, bound - d)
    ensures Siblings(ns, Kids(ns, n), Some(n), bound - d + 1)
    ensures d == 0 ==> Kids(ns, n) == []
    ensures Kids(ns, n) == [] && d > 0 ==> Preorder(ns, Kids(ns, n), d - 1) == []
  {
    forall k <- Kids(ns, n) ensures AtDepth(ns, k, bound - d + 1) {}
    if Kids(ns, n) != [] {
      var k := Member(Kids(ns, n));
    }
  }

  // ---------- the list of a forest ----------

  lemma {:induction false} OwnedByAppend(ns: seq<TreeNode>, a: seq<TreeNode>, b: seq<TreeNode>, o: Option<TreeNode>)
    ensures OwnedBy(ns, a + b, o) == OwnedBy(ns, a, o) + OwnedBy(ns, b, o)
    decreases |b|
  {
    hide Owner;
    if b == [] {
      assert a + b == a;
    } else {
      assert (a + b)[..|a + b| - 1] == a + b[..|b| - 1];
      OwnedByAppend(ns, a, b[..|b| - 1], o);
    }
  }

  lemma {:induction false} OwnedByCounts(ns: seq<TreeNode>, xs: seq<TreeNode>, o: Option<TreeNode>, n: TreeNode)
    ensures multiset(OwnedBy(ns, xs, o))[n] == if Owner(ns, n) == o then multiset(xs)[n] else 0
  {
    hide Owner;
    if xs != [] {
      OwnedByCounts(ns, xs[..|xs| - 1], o, n);
      assert xs == xs[..|xs| - 1] + [xs[|xs| - 1]];
    }
  }

  /** The `k`-th owner of a node. */
  function Up(ns: seq<TreeNode>, n: TreeNode, k: nat): Option<TreeNode> {
    if k == 0 then Some(n)
    else match Owner(ns, n)
         case None => None
         case Some(p) => Up(ns, p, k - 1)
  }

  lemma {:induction false} UpOnce(ns: seq<TreeNode>, n: TreeNode, k: nat, x: TreeNode)
    requires Up(ns, n, k) == Some(x)
    ensures Up(ns, n, k + 1) == Owner(ns, x)
  {
    hide Owner;
    if k > 0 {
      UpOnce(ns, Owner(ns, n).value, k - 1, x);
    }
  }

  lemma Listed(ns: seq<TreeNode>, nodes: seq<TreeNode>, d: nat, n: TreeNode)
    requires nodes != []
    ensures n in Preorder(ns, nodes, d)
       <==> || n in Preorder(ns, nodes[..|nodes| - 1], d)
            || n == nodes[|nodes| - 1]
            || (d > 0 && n in Preorder(ns, Kids(ns, nodes[|nodes| - 1]), d - 1))
  {
    hide OwnedBy;
  }

  lemma FrontSiblings(ns: seq<TreeNode>, nodes: seq<TreeNode>, q: Option<TreeNode>, depth: nat)
    requires nodes != [] && Siblings(ns, nodes, q, depth)
    ensures Siblings(ns, nodes[..|nodes| - 1], q, depth)
    ensures var last := nodes[|nodes| - 1];
            last in nodes && last in ns && Owner(ns, last) == q && AtDepth(ns, last, depth)
  {
    hide AtDepth, Owner;
    assert forall x <- nodes[..|nodes| - 1] :: x in nodes;
  }

  /** What `Preorder` lists lies below one of the nodes it starts from, and has an exact depth. */
  lemma {:induction false} ListedIsBelow(ns: seq<TreeNode>, nodes: seq<TreeNode>, q: Option<TreeNode>,
                                         bound: nat, d: nat, n: TreeNode) returns (k: nat)
    requires DepthBound(ns, ns, bound) && d <= bound && Siblings(ns, nodes, q, bound - d)
    requires n in Preorder(ns, nodes, d)
    ensures n in ns && AtDepth(ns, n, bound - d + k)
    ensures Up(ns, n, k).Some? && Up(ns, n, k).value in nodes
    decreases d, |nodes|
  {
    hide AtDepth, OwnedBy, DepthBound, Preorder, Owner, Siblings;
    if nodes == [] {
      NothingListed(ns, d);
      assert false;
    }
    var front, last := nodes[..|nodes| - 1], nodes[|nodes| - 1];
    Listed(ns, nodes, d, n);
    FrontSiblings(ns, nodes, q, bound - d);
    if n in Preorder(ns, front, d) {
      k := ListedIsBelow(ns, front, q, bound, d, n);
    } else if n == last {
      k := 0;
    } else {
      KidsAreSiblings(ns, last, bound, d);
      k := ListedIsBelow(ns, Kids(ns, last), Some(last), bound, d - 1, n);
      UpOnce(ns, n, k, Up(ns, n, k).value);
      k := k + 1;
    }
  }

  lemma NothingListed(ns: seq<TreeNode>, d: nat)
    ensures Preorder(ns, [], d) == []
  {}

  /** Different siblings have nothing listed below them in common. */
  lemma SubtreesApart(ns: seq<TreeNode>, a: seq<TreeNode>, b: seq<TreeNode>, q: Option<TreeNode>,
                      bound: nat, d: nat, n: TreeNode)
    requires DepthBound(ns, ns, bound) && d <= bound && Siblings(ns, a, q, bound - d) && Siblings(ns, b, q, bound - d)
    requires forall x :: !(x in a && x in b)
    requires n in Preorder(ns, a, d)
    ensures n !in Preorder(ns, b, d)
  {
    hide AtDepth, Preorder, Owner, Siblings, DepthBound;
    if n in Preorder(ns, b, d) {
      var i := ListedIsBelow(ns, a, q, bound, d, n);
      var j := ListedIsBelow(ns, b, q, bound, d, n);
      DepthUnique(ns, n, bound - d + i, bound - d + j);
    }
  }

  /** The part of the list that lies strictly below one node. */
  function BelowNode(ns: seq<TreeNode>, n: TreeNode, d: nat): seq<TreeNode> {
    if d == 0 then [] else Preorder(ns, Kids(ns, n), d - 1)
  }

  lemma PreorderIs(ns: seq<TreeNode>, nodes: seq<TreeNode>, d: nat)
    requires nodes != []
    ensures var front, last := nodes[..|nodes| - 1], nodes[|nodes| - 1];
            Preorder(ns, nodes, d) == Preorder(ns, front, d) + [last] + BelowNode(ns, last, d)
  {
    hide OwnedBy;
  }

  /** An owner further up is not listed. */
  lemma OwnerNotListed(ns: seq<TreeNode>, nodes: seq<TreeNode>, p: TreeNode, bound: nat, d: nat)
    requires DepthBound(ns, ns, bound) && d <= bound && Siblings(ns, nodes, Some(p), bound - d)
    ensures p !in Preorder(ns, nodes, d)
  {
    hide Preorder, DepthBound;
    if p in Preorder(ns, nodes, d) {
      var k := ListedIsBelow(ns, nodes, Some(p), bound, d, p);
      var x := Up(ns, p, k).value;
      assert AtDepth(ns, x, bound - d);
      DepthUnique(ns, p, bound - d + k, bound - d - 1);
    }
  }

  /** The last of some siblings, what is listed before it and what is listed below it. */
  lemma PartsApart(ns: seq<TreeNode>, nodes: seq<TreeNode>, q: Option<TreeNode>, bound: nat, d: nat)
    requires DepthBound(ns, ns, bound) && d <= bound && Siblings(ns, nodes, q, bound - d) && Distinct(nodes)
    requires nodes != []
    ensures var last := nodes[|nodes| - 1];
            var before, below := Preorder(ns, nodes[..|nodes| - 1], d), BelowNode(ns, last, d);
            && q != Some(last) && last !in before && last !in below
            && forall n :: !(n in before && n in below)
  {
    hide AtDepth, Preorder, Owner, Siblings, DepthBound, OwnedBy;
    var front, last := nodes[..|nodes| - 1], nodes[|nodes| - 1];
    FrontSiblings(ns, nodes, q, bound - d);
    assert Siblings(ns, [last], q, bound - d) by { AlsoSiblings(ns, nodes, last, q, bound - d); }
    PreorderIs(ns, [last], d);
    NothingListed(ns, d);
    assert [last][..0] == [];
    assert Preorder(ns, [last], d) == [last] + BelowNode(ns, last, d);
    forall n | n in Preorder(ns, [last], d) ensures n !in Preorder(ns, front, d) {
      SubtreesApart(ns, [last], front, q, bound, d, n);
    }
    KidsAreSiblings(ns, last, bound, d);
    if d > 0 {
      OwnerNotListed(ns, Kids(ns, last), last, bound, d - 1);
    }
    if q == Some(last) {
      OwnerNotListed(ns, [last], last, bound, d);
    }
  }

  lemma AlsoSiblings(ns: seq<TreeNode>, nodes: seq<TreeNode>, n: TreeNode, q: Option<TreeNode>, depth: nat)
    requires Siblings(ns, nodes, q, depth) && n in nodes
    ensures Siblings(ns, [n], q, depth)
  {
    hide AtDepth, Owner;
  }

  lemma OwnedByOne(ns: seq<TreeNode>, n: TreeNode, o: Option<TreeNode>)
    ensures OwnedBy(ns, [n], o) == if Owner(ns, n) == o then [n] else []
  {
    hide Owner;
  }

  lemma OwnedByNothing(ns: seq<TreeNode>, o: Option<TreeNode>)
    ensures OwnedBy(ns, [], o) == []
  {}

  lemma OwnedByDistinct(ns: seq<TreeNode>, xs: seq<TreeNode>, o: Option<TreeNode>)
    requires Distinct(xs)
    ensures Distinct(OwnedBy(ns, xs, o))
  {
    hide Owner;
    var r := OwnedBy(ns, xs, o);
    forall i, j | 0 <= i < j < |r| ensures r[i] != r[j] {
      if r[i] == r[j] {
        TwiceCounted(r, i, j);
        OwnedByCounts(ns, xs, o, r[i]);
        OnceCounted(xs, r[i]);
      }
    }
  }

  /** What filtering a list by owner `o` must give: see `ListedByOwner`. */
  function Expected(ns: seq<TreeNode>, nodes: seq<TreeNode>, listed: seq<TreeNode>,
                    q: Option<TreeNode>, o: Option<TreeNode>): seq<TreeNode> {
    if o == q then nodes
    else if o.Some? && o.value in listed then Kids(ns, o.value)
    else []
  }

  /**
   The list keeps the order of siblings: filtering it by owner gives the starting nodes for their
   own owner, all children in input order for every node listed, and nothing for any other.
   */
  lemma {:induction false} ListedByOwner(ns: seq<TreeNode>, nodes: seq<TreeNode>, q: Option<TreeNode>,
                                         bound: nat, d: nat, o: Option<TreeNode>)
    requires DepthBound(ns, ns, bound) && d <= bound && Siblings(ns, nodes, q, bound - d) && Distinct(nodes)
    requires Distinct(ns)
    ensures OwnedBy(ns, Preorder(ns, nodes, d), o) == Expected(ns, nodes, Preorder(ns, nodes, d), q, o)
    decreases d, |nodes|
  {
    hide AtDepth, Preorder, Owner, Siblings, DepthBound, OwnedBy;
    if nodes == [] {
      NothingListed(ns, d);
      OwnedByNothing(ns, o);
    } else {
      var front, last := nodes[..|nodes| - 1], nodes[|nodes| - 1];
      var before, below := Preorder(ns, front, d), BelowNode(ns, last, d);
      FrontSiblings(ns, nodes, q, bound - d);
      ListedByOwner(ns, front, q, bound, d, o);
      KidsAreSiblings(ns, last, bound, d);
      OwnedByNothing(ns, o);
      OwnedByDistinct(ns, ns, Some(last));
      if d > 0 {
        ListedByOwner(ns, Kids(ns, last), Some(last), bound, d - 1, o);
      }
      PreorderIs(ns, nodes, d);
      OwnedByAppend(ns, before + [last], below, o);
      OwnedByAppend(ns, before, [last], o);
      OwnedByOne(ns, last, o);
      PartsApart(ns, nodes, q, bound, d);
      if q.Some? {
        OwnerNotListed(ns, nodes, q.value, bound, d);
      }
    }
  }

  /** Parents come before their children. */
  lemma {:induction false} ParentFirst(ns: seq<TreeNode>, nodes: seq<TreeNode>, q: Option<TreeNode>,
                                       bound: nat, d: nat, j: nat, p: TreeNode) returns (i: nat)
    requires DepthBound(ns, ns, bound) && d <= bound && Siblings(ns, nodes, q, bound - d)
    requires j < |Preorder(ns, nodes, d)| && Owner(ns, Preorder(ns, nodes, d)[j]) == Some(p) && q != Some(p)
    ensures i < j && Preorder(ns, nodes, d)[i] == p
    decreases d, |nodes|
  {
    hide AtDepth, Preorder, Owner, Siblings, DepthBound, OwnedBy;
    NothingListed(ns, d);
    assert nodes != [];
    var front, last := nodes[..|nodes| - 1], nodes[|nodes| - 1];
    var before := Preorder(ns, front, d);
    PreorderIs(ns, nodes, d);
    FrontSiblings(ns, nodes, q, bound - d);
    KidsAreSiblings(ns, last, bound, d);
    if j < |before| {
      i := ParentFirst(ns, front, q, bound, d, j, p);
    } else if p == last {
      i := |before|;
    } else {
      i := ParentFirst(ns, Kids(ns, last), Some(last), bound, d - 1, j - |before| - 1, p);
      i := |before| + 1 + i;
    }
  }

  // ---------- subtrees stay together ----------

  /** `n` is `p` or below it. */
  ghost predicate IsUnder(ns: seq<TreeNode>, p: TreeNode, n: TreeNode) { exists k: nat :: Up(ns, n, k) == Some(p) }

  lemma {:induction false} UpTwice(ns: seq<TreeNode>, n: TreeNode, j: nat, k: nat)
    requires Up(ns, n, j).Some?
    ensures Up(ns, n, j + k) == Up(ns, Up(ns, n, j).value, k)
  {
    if j > 0 {
      UpTwice(ns, Owner(ns, n).value, j - 1, k);
    }
  }

  lemma {:induction false} UpDepth(ns: seq<TreeNode>, n: TreeNode, k: nat, depth: nat)
    requires Up(ns, n, k).Some? && AtDepth(ns, n, depth)
    ensures k <= depth && AtDepth(ns, Up(ns, n, k).value, depth - k)
  {
    if k > 0 {
      UpDepth(ns, Owner(ns, n).value, k - 1, depth - 1);
    }
  }

  /** What lies under a listed node is listed from the same sibling. */
  lemma UnderSameSibling(ns: seq<TreeNode>, a: seq<TreeNode>, b: seq<TreeNode>, q: Option<TreeNode>,
                         bound: nat, d: nat, x: TreeNode, n: TreeNode)
    requires DepthBound(ns, ns, bound) && d <= bound && Siblings(ns, a, q, bound - d) && Siblings(ns, b, q, bound - d)
    requires x in Preorder(ns, a, d) && n in Preorder(ns, b, d) && IsUnder(ns, x, n)
    ensures exists f <- a :: f in b
  {
    hide AtDepth, Preorder, Owner, DepthBound;
    var k: nat :| Up(ns, n, k) == Some(x);
    var i := ListedIsBelow(ns, a, q, bound, d, x);
    var j := ListedIsBelow(ns, b, q, bound, d, n);
    UpTwice(ns, n, k, i);
    var f := Up(ns, x, i).value;
    UpDepth(ns, n, k + i, bound - d + j);
    DepthUnique(ns, f, bound - d, bound - d + j - (k + i));
  }

  /** Between a node and one below it the list has nothing but what is below that node. */
  lemma {:induction false} SubtreesTogether(ns: seq<TreeNode>, nodes: seq<TreeNode>, q: Option<TreeNode>,
                                            bound: nat, d: nat, i: nat, j: nat, k: nat)
    requires DepthBound(ns, ns, bound) && d <= bound && Siblings(ns, nodes, q, bound - d)
    requires Distinct(ns) && Distinct(nodes)
    requires i <= j <= k < |Preorder(ns, nodes, d)|
    requires IsUnder(ns, Preorder(ns, nodes, d)[i], Preorder(ns, nodes, d)[k])
    ensures IsUnder(ns, Preorder(ns, nodes, d)[i], Preorder(ns, nodes, d)[j])
    decreases d, |nodes|
  {
    hide AtDepth, Preorder, Owner, Siblings, DepthBound, OwnedBy, IsUnder;
    NothingListed(ns, d);
    assert nodes != [];
    var front, last := nodes[..|nodes| - 1], nodes[|nodes| - 1];
    var before, below := Preorder(ns, front, d), BelowNode(ns, last, d);
    PreorderIs(ns, nodes, d);
    FrontSiblings(ns, nodes, q, bound - d);
    KidsAreSiblings(ns, last, bound, d);
    OwnedByDistinct(ns, ns, Some(last));
    var m := |before|;
    if i < m {
      if k >= m {
        LastPart(ns, last, d, k - m);
        AlsoSiblings(ns, nodes, last, q, bound - d);
        UnderSameSibling(ns, front, [last], q, bound, d, before[i], Preorder(ns, nodes, d)[k]);
        assert false;
      }
      SubtreesTogether(ns, front, q, bound, d, i, j, k);
    } else if i == m {
      if j == m {
        IsUnderSelf(ns, last);
      } else {
        var n := below[j - m - 1];
        var u := ListedIsBelow(ns, Kids(ns, last), Some(last), bound, d - 1, n);
        OneMoreUp(ns, last, n, u);
      }
    } else {
      SubtreesTogether(ns, Kids(ns, last), Some(last), bound, d - 1, i - m - 1, j - m - 1, k - m - 1);
    }
  }

  lemma LastPart(ns: seq<TreeNode>, last: TreeNode, d: nat, k: nat)
    requires k < 1 + |BelowNode(ns, last, d)|
    ensures ([last] + BelowNode(ns, last, d))[k] in Preorder(ns, [last], d)
  {
    hide OwnedBy;
    PreorderIs(ns, [last], d);
    assert [last][..0] == [];
    NothingListed(ns, d);
  }

  lemma IsUnderSelf(ns: seq<TreeNode>, n: TreeNode)
    ensures IsUnder(ns, n, n)
  {
    assert Up(ns, n, 0) == Some(n);
  }

  lemma OneMoreUp(ns: seq<TreeNode>, p: TreeNode, n: TreeNode, k: nat)
    requires Up(ns, n, k).Some? && Owner(ns, Up(ns, n, k).value) == Some(p)
    ensures IsUnder(ns, p, n)
  {
    UpOnce(ns, n, k, Up(ns, n, k).value);
    assert Up(ns, n, k + 1) == Some(p);
  }

  lemma OwnedByMember(ns: seq<TreeNode>, n: TreeNode)
    requires n in ns
    ensures n in OwnedBy(ns, ns, Owner(ns, n))
  {
    OwnedByCounts(ns, ns, Owner(ns, n), n);
  }

  lemma RootsAreSiblings(ns: seq<TreeNode>)
    ensures Siblings(ns, Roots(ns), None, 0)
  {
    forall n <- Roots(ns) ensures AtDepth(ns, n, 0) {}
  }

  /** The forest of `ns`, listed. */
  function Listing(ns: seq<TreeNode>, bound: nat): seq<TreeNode> { Preorder(ns, Roots(ns), bound) }

  lemma {:induction false} RootedIsListed(ns: seq<TreeNode>, bound: nat, n: TreeNode, d: nat)
    requires Distinct(ns) && DepthBound(ns, ns, bound) && n in ns && AtDepth(ns, n, d)
    ensures n in Listing(ns, bound)
  {
    hide Preorder, DepthBound, Siblings, OwnedBy;
    var o := Owner(ns, n);
    RootsAreSiblings(ns);
    OwnedByDistinct(ns, ns, None);
    if o.Some? {
      RootedIsListed(ns, bound, o.value, d - 1);
    }
    ListedByOwner(ns, Roots(ns), None, bound, bound, o);
    OwnedByMember(ns, n);
    assert n in OwnedBy(ns, Listing(ns, bound), o);
  }

  /**
   Listing the forest built from a flat list gives exactly the nodes whose chain of owners ends,
   each once; siblings keep their order and parents come before their children.
   */
  lemma ListingOfForest(ns: seq<TreeNode>, bound: nat)
    requires Distinct(ns) && DepthBound(ns, ns, bound)
    ensures Distinct(Listing(ns, bound))
    ensures forall n :: n in Listing(ns, bound) <==> n in ns && IsRooted(ns, n)
    ensures OwnedBy(ns, Listing(ns, bound), None) == Roots(ns)
    ensures forall p <- Listing(ns, bound) :: OwnedBy(ns, Listing(ns, bound), Some(p)) == Kids(ns, p)
    ensures forall j :: 0 <= j < |Listing(ns, bound)| && Owner(ns, Listing(ns, bound)[j]).Some? ==>
              Owner(ns, Listing(ns, bound)[j]).value in Listing(ns, bound)[..j]
  {
    hide AtDepth, Preorder, Owner, Siblings, DepthBound, OwnedBy;
    var l := Listing(ns, bound);
    RootsAreSiblings(ns);
    OwnedByDistinct(ns, ns, None);
    ListedByOwner(ns, Roots(ns), None, bound, bound, None);
    forall p <- l ensures OwnedBy(ns, l, Some(p)) == Kids(ns, p) {
      ListedByOwner(ns, Roots(ns), None, bound, bound, Some(p));
    }
    forall n ensures n in l <==> n in ns && IsRooted(ns, n) {
      if n in l {
        var k := ListedIsBelow(ns, Roots(ns), None, bound, bound, n);
      }
      if n in ns && IsRooted(ns, n) {
        var d: nat :| AtDepth(ns, n, d);
        RootedIsListed(ns, bound, n, d);
      }
    }
    forall i, j | 0 <= i < j < |l| ensures l[i] != l[j] {
      if l[i] == l[j] {
        ListedOnce(ns, bound, l[i]);
        TwiceCounted(l, i, j);
      }
    }
    forall j | 0 <= j < |l| && Owner(ns, l[j]).Some? ensures Owner(ns, l[j]).value in l[..j] {
      var i := ParentFirst(ns, Roots(ns), None, bound, bound, j, Owner(ns, l[j]).value);
      assert l[..j][i] == l[i];
    }
  }

  lemma ListedOnce(ns: seq<TreeNode>, bound: nat, n: TreeNode)
    requires Distinct(ns) && DepthBound(ns, ns, bound)
    ensures multiset(Listing(ns, bound))[n] <= 1
  {
    hide AtDepth, Preorder, Owner, Siblings, DepthBound, OwnedBy;
    var o := Owner(ns, n);
    RootsAreSiblings(ns);
    OwnedByDistinct(ns, ns, None);
    ListedByOwner(ns, Roots(ns), None, bound, bound, o);
    OwnedByCounts(ns, Listing(ns, bound), o, n);
    OwnedByCounts(ns, ns, o, n);
    OnceCounted(ns, n);
  }

  /** Without cycles nothing is lost: the listing is a permutation of the input. */
  lemma AcyclicIsPermutation(ns: seq<TreeNode>, bound: nat)
    requires Distinct(ns) && DepthBound(ns, ns, bound) && forall n <- ns :: IsRooted(ns, n)
    ensures multiset(Listing(ns, bound)) == multiset(ns)
  {
    hide AtDepth, Preorder, DepthBound, Listing, IsRooted, OwnedBy, Owner;
    ListingOfForest(ns, bound);
    SameMembers(Listing(ns, bound), ns);
  }

  /** There and back: `transformToArrayFormat(transformTozTreeFormat(ns))`. */
  method ThereAndBack(ns: seq<TreeNode>) returns (r: seq<TreeNode>)
    requires Distinct(ns) && forall n <- ns :: n.children == []
    modifies ns
    ensures Distinct(r) && forall n :: n in r <==> n in ns && IsRooted(ns, n)
    ensures forall j :: 0 <= j < |r| && Owner(ns, r[j]).Some? ==> Owner(ns, r[j]).value in r[..j]
    ensures OwnedBy(ns, r, None) == Roots(ns) && forall p <- r :: OwnedBy(ns, r, Some(p)) == Kids(ns, p)
    ensures forall i, j, k :: 0 <= i <= j <= k < |r| && IsUnder(ns, r[i], r[k]) ==> IsUnder(ns, r[i], r[j])
  {
    hide AtDepth, DepthBound, Siblings, OwnedBy, Owner, Preorder, IsUnder;
    var forest := TransformToZTreeFormat(ns);
    ghost var bound := DepthBoundExists(ns, ns);
    RootsAreSiblings(ns);
    FlattenedForest(ns, forest, bound, bound, None);
    r := TransformToArrayFormat(List(forest), Members(ns), bound);
    ListingOfForest(ns, bound);
    OwnedByDistinct(ns, ns, None);
    forall i, j, k | 0 <= i <= j <= k < |r| && IsUnder(ns, r[i], r[k]) ensures IsUnder(ns, r[i], r[j]) {
      SubtreesTogether(ns, Roots(ns), None, bound, bound, i, j, k);
    }
  }
}
