/**
 Tri-state check boxes of static/zTree3/js/jquery.ztree.excheck.js (checkbox style): checking a node
 updates its descendants and ancestors in place.
 */
module CheckTree {
  import opened Basics

  /** `check_Child_State`: -1 no children, 0 none checked, 1 some, 2 all. */
  type ChildState = x: int | -1 <= x <= 2 witness -1

  /** What `makeChkFlag` reads of a child. */
  datatype Mark = Mark(checked: bool, childState: ChildState, nocheck: bool, chkDisabled: bool, halfCheck: bool)

  /** A child's contribution to its parent's state; -1 means that it is ignored. */
  function Contribution(m: Mark): ChildState {
    if m.nocheck || m.chkDisabled then m.childState
    else if m.halfCheck then 1
    else if m.checked then if m.childState == -1 || m.childState == 2 then 2 else 1
    else if m.childState > 0 then 1
    else 0
  }

  predicate Contributes(ms: seq<Mark>, v: ChildState) { exists m <- ms :: Contribution(m) == v }

  /**
   The summary of the children, as a join of what they contribute: nothing if all are ignored,
   0 or 2 if the others agree on it, otherwise 1.
   */
  function Join(ms: seq<Mark>): ChildState {
    if Contributes(ms, 1) || (Contributes(ms, 0) && Contributes(ms, 2)) then 1
    else if Contributes(ms, 0) then 0
    else if Contributes(ms, 2) then 2
    else -1
  }

  /** The summary does not depend on the order or repetition of the children. */
  lemma JoinIgnoresOrder(a: seq<Mark>, b: seq<Mark>)
    requires forall m :: m in a <==> m in b
    ensures Join(a) == Join(b)
  {
    forall v ensures Contributes(a, v) <==> Contributes(b, v) {
      if Contributes(a, v) {
        var m :| m in a && Contribution(m) == v;
        assert m in b;
      }
      if Contributes(b, v) {
        var m :| m in b && Contribution(m) == v;
        assert m in a;
      }
    }
  }

  lemma ContributesAppend(ms: seq<Mark>, m: Mark)
    ensures forall v :: Contributes(ms + [m], v) <==> Contributes(ms, v) || Contribution(m) == v
  {
    forall v ensures Contributes(ms + [m], v) <==> Contributes(ms, v) || Contribution(m) == v {
      assert forall x :: x in ms + [m] <==> x in ms || x == m;
    }
  }

  /** Once mixed, always mixed: the early breaks of `makeChkFlag` lose nothing. */
  lemma MixedStaysMixed(ms: seq<Mark>, n: nat)
    requires n <= |ms| && Join(ms[..n]) == 1
    ensures Join(ms) == 1
  {
    forall v | Contributes(ms[..n], v) ensures Contributes(ms, v) {
      var m :| m in ms[..n] && Contribution(m) == v;
      assert m in ms;
    }
  }

  /** A child that opts out, with a state that summarises its own children, stands for these children. */
  lemma OptedOutIsTransparent(a: seq<Mark>, m: Mark, inner: seq<Mark>, b: seq<Mark>)
    requires (m.nocheck || m.chkDisabled) && m.childState == Join(inner)
    ensures Join(a + [m] + b) == Join(a + inner + b)
  {
    forall v
      ensures Contributes(a + [m] + b, v) <==> Contributes(a, v) || Contribution(m) == v || Contributes(b, v)
      ensures Contributes(a + inner + b, v) <==> Contributes(a, v) || Contributes(inner, v) || Contributes(b, v)
    {
      assert forall x :: x in a + [m] + b <==> x in a || x == m || x in b;
      assert forall x :: x in a + inner + b <==> x in a || x in inner || x in b;
    }
  }

  /** A child with a fixed half state makes its parent's state mixed. */
  lemma HalfCheckedMixes(ms: seq<Mark>, m: Mark)
    requires m in ms && m.halfCheck && !m.nocheck && !m.chkDisabled
    ensures Join(ms) == 1
  {
    assert Contribution(m) == 1;
  }

  class Node {
    var parent: Node?
    var children: seq<Node>
    var level: nat
    var checked: bool
    var childState: ChildState
    var nocheck: bool
    var chkDisabled: bool
    var halfCheck: bool

    function Flags(): Mark
      reads this
    {
      Mark(checked, childState, nocheck, chkDisabled, halfCheck)
    }
  }

  ghost function Marks(ns: seq<Node>): (ms: seq<Mark>)
    reads ns
    ensures |ms| == |ns| && forall i :: 0 <= i < |ns| ==> ms[i] == ns[i].Flags()
  {
    if ns == [] then [] else [ns[0].Flags()] + Marks(ns[1..])
  }

  twostate lemma SameMarks(ns: seq<Node>)
    requires forall c <- ns :: old(allocated(c)) && unchanged(c)
    ensures Marks(ns) == old(Marks(ns))
  {
    hide Marks;
    var ms, before := Marks(ns), old(Marks(ns));
    forall i | 0 <= i < |ms| ensures ms[i] == before[i] {
      assert ns[i] in ns;
      assert before[i] == old(ns[i].Flags());
    }
    assert ms == before;
  }

  /** `makeChkFlag`: recompute a node's state from its children. */
  method MakeChkFlag(node: Node)
    modifies node`childState
    ensures node !in node.children ==> node.childState == Join(Marks(node.children))
  {
    hide Marks, Join;
    var chkFlag: ChildState := -1;
    ghost var ms := Marks(node.children);
    JoinOfNone();
    var i := 0;
    while i < |node.children|
      modifies {}
      invariant i <= |node.children|
      invariant chkFlag != 1 && chkFlag == Join(ms[..i])
    {
      var tmp := Contribution(node.children[i].Flags());
      assert ms[i] == node.children[i].Flags();
      JoinOneMore(ms, i);
      if tmp == 1 {
        chkFlag := 1;
        break;
      } else if tmp == 2 && chkFlag > -1 && i > 0 && tmp != chkFlag {
        chkFlag := 1;
        break;
      } else if chkFlag == 2 && tmp > -1 && tmp < 2 {
        chkFlag := 1;
        break;
      } else if tmp > -1 {
        chkFlag := tmp;
      }
      i := i + 1;
    }
    assert chkFlag == Join(ms) by {
      if i < |ms| {
        MixedStaysMixed(ms, i + 1);
      } else {
        assert ms[..i] == ms;
      }
    }
    node.childState := chkFlag;
    assert node !in node.children ==> Marks(node.children) == ms;
  }

  lemma JoinOfNone()
    ensures Join([]) == -1
  {}

  lemma JoinOneMore(ms: seq<Mark>, i: nat)
    requires i < |ms|
    ensures i == 0 ==> Join(ms[..i]) == -1
    ensures var a, c := Join(ms[..i]), Contribution(ms[i]);
            Join(ms[..i + 1]) == if c == -1 then a else if a == -1 || a == c then c else 1
  {
    assert ms[..i + 1] == ms[..i] + [ms[i]];
    ContributesAppend(ms[..i], ms[i]);
  }

  // ---------- the shape of a forest ----------

  /** Parents and children agree, and levels count down from the roots. */
  ghost predicate Shape(S: set<Node>)
    reads S`parent, S`children, S`level
  {
    forall n <- S ::
      && (n.parent != null ==> n.parent in S && n in n.parent.children)
      && (forall c <- n.children :: c in S && c.parent == n && c.level == n.level + 1)
  }

  /** `n` is `x` or an ancestor of it. */
  ghost predicate Above(S: set<Node>, n: Node, x: Node)
    requires Shape(S) && x in S
    reads S`parent, S`children, S`level
    decreases x.level
  {
    x == n || (x.parent != null && (assert x in x.parent.children; Above(S, n, x.parent)))
  }

  lemma ParentIsHigher(S: set<Node>, x: Node)
    requires Shape(S) && x in S && x.parent != null
    ensures x.parent in S && x in x.parent.children && x.level == x.parent.level + 1
  {}

  lemma {:induction false} AboveIsHigher(S: set<Node>, n: Node, x: Node)
    requires Shape(S) && x in S && Above(S, n, x)
    ensures n in S && n.level <= x.level && (n.level == x.level ==> n == x)
    decreases x.level
  {
    if x != n {
      ParentIsHigher(S, x);
      AboveIsHigher(S, n, x.parent);
    }
  }

  /** Below a node lie the node itself and what lies below its children. */
  lemma {:induction false} BelowIsSelfOrBelowChild(S: set<Node>, n: Node, x: Node)
    requires Shape(S) && n in S && x in S
    ensures Above(S, n, x) <==> x == n || exists c <- n.children :: Above(S, c, x)
    decreases x.level
  {
    if x.parent != null {
      ParentIsHigher(S, x);
      BelowIsSelfOrBelowChild(S, n, x.parent);
      if x.parent == n {
        assert Above(S, x, x);
      }
    }
  }

  // ---------- setting descendants ----------

  /** No node opts out of checking or carries a fixed half state. */
  predicate Plain(S: set<Node>)
    reads S`nocheck, S`chkDisabled, S`halfCheck
  {
    forall n <- S :: !n.nocheck && !n.chkDisabled && !n.halfCheck
  }

  function UniformState(x: Node, value: bool): ChildState
    reads x`children
  {
    if x.children == [] then -1 else if value then 2 else 0
  }

  /** All of a subtree agrees with `value`, seen at its node `x`. */
  predicate IsSet(x: Node, value: bool)
    reads x`checked, x`childState, x`children
  {
    x.checked == value && x.childState == UniformState(x, value)
  }

  /** The node and its descendants. */
  ghost function Below(S: set<Node>, n: Node): set<Node>
    requires Shape(S)
    reads S`parent, S`children, S`level
  {
    set x | x in S && Above(S, n, x)
  }

  ghost function BelowAll(S: set<Node>, ns: seq<Node>): set<Node>
    requires Shape(S)
    reads S`parent, S`children, S`level
  {
    if ns == [] then {} else BelowAll(S, ns[..|ns| - 1]) + Below(S, ns[|ns| - 1])
  }

  lemma {:induction false} BelowAllIs(S: set<Node>, ns: seq<Node>, x: Node)
    requires Shape(S)
    ensures x in BelowAll(S, ns) <==> exists c <- ns :: x in Below(S, c)
  {
    if ns != [] {
      BelowAllIs(S, ns[..|ns| - 1], x);
      assert forall c :: c in ns <==> c in ns[..|ns| - 1] || c == ns[|ns| - 1];
    }
  }

  lemma NoneBelowNone(S: set<Node>)
    requires Shape(S)
    ensures BelowAll(S, []) == {}
  {}

  lemma BelowOneMore(S: set<Node>, ns: seq<Node>, i: nat)
    requires Shape(S) && i < |ns|
    ensures BelowAll(S, ns[..i + 1]) == BelowAll(S, ns[..i]) + Below(S, ns[i])
  {
    assert ns[..i + 1][..i] == ns[..i];
  }

  lemma BelowIsNodeAndChildren(S: set<Node>, n: Node)
    requires Shape(S) && n in S
    ensures Below(S, n) == {n} + BelowAll(S, n.children)
  {
    hide Above, BelowAll;
    forall x | x in Below(S, n) ensures x in {n} + BelowAll(S, n.children) {
      BelowAllIs(S, n.children, x);
      BelowIsSelfOrBelowChild(S, n, x);
    }
    forall x | x in {n} + BelowAll(S, n.children) ensures x in Below(S, n) {
      BelowAllIs(S, n.children, x);
      BelowIsSelfOrBelowChild(S, n, if x in S then x else n);
    }
  }

  /** The node takes no part in checking. */
  predicate OptsOut(n: Node)
    reads n`nocheck, n`chkDisabled
  {
    n.nocheck || n.chkDisabled
  }

  predicate SomeChildDisabled(n: Node)
    reads n`children, n.children`chkDisabled
  {
    exists c <- n.children :: c.chkDisabled
  }

  /** What `setSonNodeCheckBox` leaves at a node that was marked so before. */
  predicate MarkedDown(was: bool, wasState: ChildState, value: bool, x: Node)
    reads x, x.children`chkDisabled
  {
    if x.chkDisabled then x.checked == was && x.childState == wasState
    else if x.nocheck then x.checked == was && x.childState == -1
    else x.checked == value && (!SomeChildDisabled(x) ==> IsSet(x, value))
  }

  /** The end of `setSonNodeCheckBox`, after the children. */
  method SetSelf(node: Node, value: bool, hasDisable: bool)
    requires hasDisable <==> SomeChildDisabled(node)
    modifies node`checked, node`childState
    ensures MarkedDown(old(node.checked), old(node.childState), value, node)
  {
    if !node.chkDisabled {
      if hasDisable && !node.nocheck {
        MakeChkFlag(node);
      }
      if !node.nocheck && !node.chkDisabled {
        node.checked := value;
        if !hasDisable {
          node.childState := if |node.children| > 0 then if value then 2 else 0 else -1;
        }
      } else {
        node.childState := -1;
      }
    }
  }

  /** `setSonNodeCheckBox`; no node lies deeper than level `bound`. */
  method SetSonNodeCheckBox(node: Node, value: bool, ghost S: set<Node>, ghost bound: nat)
    requires Shape(S) && node in S && forall x <- S :: x.level <= bound
    modifies S`checked, S`childState
    ensures forall x <- Below(S, node) :: MarkedDown(old(x.checked), old(x.childState), value, x)
    ensures forall x <- S - Below(S, node) :: x.checked == old(x.checked) && x.childState == old(x.childState)
    decreases bound - node.level, 1
  {
    hide Above, Below, BelowAll, SomeChildDisabled, IsSet;
    var hasDisable := SetSons(node, value, S, bound);
    BelowIsNodeAndChildren(S, node);
    SetSelf(node, value, hasDisable);
  }

  /** The loop over the children. */
  method SetSons(node: Node, value: bool, ghost S: set<Node>, ghost bound: nat) returns (hasDisable: bool)
    requires Shape(S) && node in S && forall x <- S :: x.level <= bound
    modifies S`checked, S`childState
    ensures hasDisable <==> SomeChildDisabled(node)
    ensures BelowAll(S, node.children) <= S
    ensures forall x <- BelowAll(S, node.children) :: MarkedDown(old(x.checked), old(x.childState), value, x)
    ensures forall x <- S - BelowAll(S, node.children) ::
              x.checked == old(x.checked) && x.childState == old(x.childState)
    decreases bound - node.level, 0
  {
    hide Above, Below, BelowAll, IsSet, UniformState, SomeChildDisabled;
    NoneBelowNone(S);
    hasDisable := false;
    var i := 0;
    ghost var done: set<Node> := {};
    while i < |node.children|
      invariant i <= |node.children|
      invariant hasDisable <==> exists c <- node.children[..i] :: c.chkDisabled
      invariant done == BelowAll(S, node.children[..i]) && done <= S
      invariant forall x <- done :: MarkedDown(old(x.checked), old(x.childState), value, x)
      invariant forall x <- S - done :: x.checked == old(x.checked) && x.childState == old(x.childState)
    {
      var sNode := node.children[i];
      SetSonNodeCheckBox(sNode, value, S, bound);
      BelowOneMore(S, node.children, i);
      BelowInside(S, sNode);
      done := done + Below(S, sNode);
      assert forall c :: c in node.children[..i + 1] <==> c in node.children[..i] || c == sNode;
      if sNode.chkDisabled {
        hasDisable := true;
      }
      i := i + 1;
    }
    assert node.children[..i] == node.children;
    SomeDisabled(node);
  }

  lemma SomeDisabled(n: Node)
    ensures SomeChildDisabled(n) <==> exists c <- n.children :: c.chkDisabled
  {}

  /** Where nobody opts out, a node that is marked agrees with the value. */
  lemma PlainIsSet(S: set<Node>, value: bool)
    requires Shape(S) && Plain(S)
    ensures forall x, was, wasState :: x in S && MarkedDown(was, wasState, value, x) ==> IsSet(x, value)
  {}

  // ---------- setting ancestors ----------

  ghost function Ancestors(S: set<Node>, x: Node): (r: set<Node>)
    requires Shape(S) && x in S
    ensures r <= S && forall a <- r :: a.level < x.level
    reads S`parent, S`children, S`level
    decreases x.level
  {
    if x.parent == null then {}
    else
      ParentIsHigher(S, x);
      {x.parent} + Ancestors(S, x.parent)
  }

  /** Every ancestor has a child on the way down to the node. */
  lemma {:induction false} AncestorHasChildOnPath(S: set<Node>, x: Node, a: Node)
    requires Shape(S) && x in S && a in Ancestors(S, x)
    ensures exists c <- a.children :: c in {x} + Ancestors(S, x)
    decreases x.level
  {
    ParentIsHigher(S, x);
    if a != x.parent {
      AncestorHasChildOnPath(S, x.parent, a);
    }
  }

  /** An inner node is checked exactly when one of its children is. */
  ghost predicate CheckedLikeChildren(n: Node)
    reads n`checked, n`children, n.children`checked
  {
    n.children != [] ==> (n.checked <==> exists c <- n.children :: c.checked)
  }

  ghost predicate StateFits(n: Node)
    reads n, n.children
  {
    n.childState == Join(Marks(n.children))
  }

  /** What passing an unchecking on to the parent relies on: the ancestors were checked. */
  ghost predicate Ready(S: set<Node>, node: Node, value: bool)
    requires Shape(S) && node in S
    reads S
  {
    Plain(S) && (value || forall a <- Ancestors(S, node) :: a.checked)
  }

  lemma ReadyIs(S: set<Node>, node: Node, value: bool)
    requires Shape(S) && node in S
    ensures Ready(S, node, value) <==> Plain(S) && (value || forall a <- Ancestors(S, node) :: a.checked)
  {}

  lemma NotOwnChild(S: set<Node>, node: Node)
    requires Shape(S) && node in S
    ensures node !in node.children && (forall c <- node.children :: c in S && c !in Ancestors(S, node))
  {
    hide Above;
  }

  /** An ancestor that opts out is left alone; the others are all checked, or are unchecked as far as it goes. */
  predicate MarkedUp(was: bool, value: bool, a: Node)
    reads a`checked, a`nocheck, a`chkDisabled
  {
    if OptsOut(a) then a.checked == was else if value then a.checked else a.checked ==> was
  }

  /** `setParentNodeCheckBox`: up the tree, when unchecking only as far as no sibling is checked. */
  method SetParentNodeCheckBox(node: Node, value: bool, ghost S: set<Node>)
    requires Shape(S) && node in S
    modifies S`checked, S`childState
    ensures StateFits(node) && node.checked == (if OptsOut(node) then old(node.checked) else value)
    ensures forall a <- Ancestors(S, node) :: MarkedUp(old(a.checked), value, a)
    ensures old(Ready(S, node, value)) ==>
              node.checked == value && forall a <- Ancestors(S, node) :: CheckedLikeChildren(a)
    ensures forall x <- S - {node} - Ancestors(S, node) ::
              x.checked == old(x.checked) && x.childState == old(x.childState)
    decreases node.level, 1
  {
    hide Above, CheckedLikeChildren, Ancestors, Shape, Join;
    NotOwnChild(S, node);
    MarkNode(node, value);
    label Marked:
    GoUp(node, value, S);
    SameMarks@Marked(node.children);
  }

  method MarkNode(node: Node, value: bool)
    modifies node`checked, node`childState
    ensures node.checked == if OptsOut(node) then old(node.checked) else value
    ensures node !in node.children ==> StateFits(node)
  {
    MakeChkFlag(node);
    ghost var ms := Marks(node.children);
    if !node.nocheck && !node.chkDisabled {
      node.checked := value;
    }
    assert node !in node.children ==> Marks(node.children) == ms;
  }

  /** The rest of `setParentNodeCheckBox`, once the node itself is marked. */
  method GoUp(node: Node, value: bool, ghost S: set<Node>)
    requires Shape(S) && node in S
    modifies S`checked, S`childState
    ensures old(Ready(S, node, value)) && node.checked == value ==>
              forall a <- Ancestors(S, node) :: CheckedLikeChildren(a)
    ensures forall a <- Ancestors(S, node) :: MarkedUp(old(a.checked), value, a)
    ensures forall x <- S - Ancestors(S, node) :: x.checked == old(x.checked) && x.childState == old(x.childState)
    decreases node.level, 0
  {
    hide Above, CheckedLikeChildren, Ancestors, StateFits, Shape, Join, Marks;
    AncestorsAre(S, node);
    if node.parent != null {
      var pNode := node.parent;
      NotOwnChild(S, pNode);
      var pSign := true;
      if !value {
        pSign := NoSiblingChecked(pNode.children);
      }
      if pSign {
        SetParentNodeCheckBox(pNode, value, S);
        assert forall c <- pNode.children :: c in S - {pNode} - Ancestors(S, pNode);
        if old(Ready(S, node, value)) && node.checked == value {
          LikeChildren(pNode, value);
        }
      } else if Ready(S, node, value) {
        LikeChildren(pNode, true);
        CheckedPathFits(S, pNode);
      }
    }
  }

  lemma AncestorsAre(S: set<Node>, x: Node)
    requires Shape(S) && x in S
    ensures x.parent == null ==> Ancestors(S, x) == {}
    ensures x.parent != null ==>
              && x.parent in S && x in x.parent.children && x.level == x.parent.level + 1
              && Ancestors(S, x) == {x.parent} + Ancestors(S, x.parent)
  {
    hide Above;
  }

  lemma LikeChildren(n: Node, value: bool)
    requires n.checked == value
    requires if value then exists c <- n.children :: c.checked else forall c <- n.children :: !c.checked
    ensures CheckedLikeChildren(n)
  {}

  lemma CheckedPathFits(S: set<Node>, x: Node)
    requires Shape(S) && x in S && x.checked && forall a <- Ancestors(S, x) :: a.checked
    ensures forall a <- Ancestors(S, x) :: CheckedLikeChildren(a)
  {
    forall a <- Ancestors(S, x) ensures CheckedLikeChildren(a) {
      AncestorHasChildOnPath(S, x, a);
    }
  }

  method NoSiblingChecked(pNodes: seq<Node>) returns (pSign: bool)
    ensures pSign <==> forall n <- pNodes :: if OptsOut(n) then n.childState <= 0 else !n.checked
  {
    pSign := true;
    for i := 0 to |pNodes|
      invariant pSign
      invariant forall k :: 0 <= k < i ==> if OptsOut(pNodes[k]) then pNodes[k].childState <= 0 else !pNodes[k].checked
    {
      if (!pNodes[i].nocheck && !pNodes[i].chkDisabled && pNodes[i].checked)
         || ((pNodes[i].nocheck || pNodes[i].chkDisabled) && pNodes[i].childState > 0)
      {
        return false;
      }
    }
  }

  // ---------- repairing the states ----------

  /** `repairParentChkClass`: recompute the state of every ancestor, from the lowest up. */
  method RepairParentChkClass(node: Node, ghost S: set<Node>)
    requires Shape(S) && node in S
    modifies S`childState
    ensures forall a <- Ancestors(S, node) :: StateFits(a)
    ensures forall x <- S - Ancestors(S, node) :: x.childState == old(x.childState)
    decreases node.level
  {
    if node.parent == null {
      return;
    }
    ParentIsHigher(S, node);
    var pNode := node.parent;
    MakeChkFlag(pNode);
    label Repaired:
    RepairParentChkClass(pNode, S);
    SameMarks@Repaired(pNode.children);
  }

  /** `repairParentChkClassWithSelf` */
  method RepairParentChkClassWithSelf(node: Node, ghost S: set<Node>)
    requires Shape(S) && node in S
    modifies S`childState
    ensures forall a <- Ancestors(S, node) :: StateFits(a)
    ensures node.children != [] ==> StateFits(node)
    ensures node.children == [] ==> node.childState == old(node.childState)
    ensures forall x <- S - {node} - Ancestors(S, node) :: x.childState == old(x.childState)
  {
    if |node.children| > 0 {
      RepairParentChkClass(node.children[0], S);
    } else {
      RepairParentChkClass(node, S);
    }
  }

  // ---------- checking a node ----------

  /** `chkboxType`: which of "p" and "s" occur for checking and for unchecking. */
  datatype ChkboxType = ChkboxType(yp: bool, ys: bool, np: bool, ns: bool)

  const DEFAULT := ChkboxType(true, true, true, true)

  /** Both invariants at every node: the state summarises the children, and so does the check mark. */
  ghost predicate Consistent(S: set<Node>)
    requires Shape(S)
    reads S
  {
    forall n <- S :: StateFits(n) && CheckedLikeChildren(n)
  }

  lemma BelowAndAncestors(S: set<Node>, node: Node)
    requires Shape(S) && node in S
    ensures node in Below(S, node) && Below(S, node) !! Ancestors(S, node)
    ensures forall x <- Below(S, node) :: forall c <- x.children :: c in Below(S, node) && c != node
    ensures forall x <- S - Below(S, node) - Ancestors(S, node) :: forall c <- x.children ::
              c in S - Below(S, node) - Ancestors(S, node)
  {
    hide Ancestors;
    forall x <- Below(S, node) ensures x.level >= node.level {
      AboveIsHigher(S, node, x);
    }
    forall x, c | x in S && c in x.children
      ensures x in Below(S, node) ==> c in Below(S, node) && c != node
      ensures x !in Below(S, node) && x !in Ancestors(S, node) ==> c !in Below(S, node) && c !in Ancestors(S, node)
    {
      assert c.parent == x;
      AncestorsAre(S, node);
      AncestorsClosed(S, node, c);
    }
  }

  lemma {:induction false} AncestorsClosed(S: set<Node>, x: Node, a: Node)
    requires Shape(S) && x in S && a in S
    ensures a in Ancestors(S, x) && a.parent != null ==> a.parent in Ancestors(S, x)
    decreases x.level
  {
    hide Above;
    if x.parent != null {
      ParentIsHigher(S, x);
      AncestorsClosed(S, x.parent, a);
      if a == x.parent && a.parent != null {
        ParentIsHigher(S, a);
        assert a.parent in Ancestors(S, a);
      }
    }
  }

  /** The part of `checkNodeRelation` (checkbox branch) that goes down. */
  method RelateSons(chkboxType: ChkboxType, node: Node, ghost S: set<Node>, ghost bound: nat)
    requires Shape(S) && node in S && forall x <- S :: x.level <= bound
    modifies S`checked, S`childState
    ensures node.checked == old(node.checked)
    ensures forall x <- Below(S, node) ::
              x.checked == if (if node.checked then chkboxType.ys else chkboxType.ns) && !OptsOut(x) then node.checked
                           else old(x.checked)
    ensures chkboxType == DEFAULT && Plain(S) ==> forall x <- Below(S, node) :: IsSet(x, node.checked)
    ensures forall x <- S - Below(S, node) :: x.checked == old(x.checked) && x.childState == old(x.childState)
  {
    hide Above, Below, Ancestors, IsSet;
    BelowAndAncestors(S, node);
    BelowInside(S, node);
    if node.children == [] {
      NoneBelowNone(S);
      BelowIsNodeAndChildren(S, node);
    }
    if node.checked && (|node.children| == 0 || chkboxType.ys) {
      SetSonNodeCheckBox(node, true, S, bound);
    }
    if !node.checked && (|node.children| == 0 || chkboxType.ns) {
      SetSonNodeCheckBox(node, false, S, bound);
    }
    if Plain(S) {
      PlainIsSet(S, node.checked);
    }
  }

  /** The part of `checkNodeRelation` (checkbox branch) that goes up. */
  method RelateParents(chkboxType: ChkboxType, node: Node, ghost S: set<Node>)
    requires Shape(S) && node in S
    modifies S`checked, S`childState
    ensures node.checked == old(node.checked)
    ensures forall a <- Ancestors(S, node) ::
              if (if node.checked then chkboxType.yp else chkboxType.np) then MarkedUp(old(a.checked), node.checked, a)
              else a.checked == old(a.checked) && a.childState == old(a.childState)
    ensures chkboxType == DEFAULT && old(Ready(S, node, node.checked)) ==>
              StateFits(node) && forall a <- Ancestors(S, node) :: CheckedLikeChildren(a)
    ensures forall x <- S - {node} - Ancestors(S, node) ::
              x.checked == old(x.checked) && x.childState == old(x.childState)
  {
    hide Above, Ancestors, StateFits, CheckedLikeChildren;
    if node.checked && chkboxType.yp {
      SetParentNodeCheckBox(node, true, S);
    }
    if !node.checked && chkboxType.np {
      SetParentNodeCheckBox(node, false, S);
    }
  }

  ghost predicate AllSet(xs: set<Node>, value: bool)
    reads xs
  {
    forall x <- xs :: IsSet(x, value)
  }

  /** `checkNodeRelation` */
  method CheckNodeRelation(chkboxType: ChkboxType, node: Node, ghost S: set<Node>, ghost bound: nat)
    requires Shape(S) && node in S && forall x <- S :: x.level <= bound
    modifies S`checked, S`childState
    ensures node.checked == old(node.checked)
    ensures forall x <- Below(S, node) ::
              x.checked == if (if node.checked then chkboxType.ys else chkboxType.ns) && !OptsOut(x) then node.checked
                           else old(x.checked)
    ensures forall a <- Ancestors(S, node) ::
              if (if node.checked then chkboxType.yp else chkboxType.np) then MarkedUp(old(a.checked), node.checked, a)
              else a.checked == old(a.checked) && a.childState == old(a.childState)
    ensures chkboxType == DEFAULT && old(Ready(S, node, node.checked)) ==>
              && StateFits(node)
              && AllSet(Below(S, node) - {node}, node.checked)
              && (forall a <- Ancestors(S, node) :: CheckedLikeChildren(a))
    ensures forall x <- S - Below(S, node) - Ancestors(S, node) ::
              x.checked == old(x.checked) && x.childState == old(x.childState)
  {
    hide Above, Below, Ancestors, StateFits, CheckedLikeChildren;
    BelowAndAncestors(S, node);
    RelateSons(chkboxType, node, S, bound);
    ghost var sons := Below(S, node) - {node};
    ghost var value := node.checked;
    assert sons <= S by { BelowInside(S, node); }
    RelateParents(chkboxType, node, S);
    assert forall x <- sons :: x in S - {node} - Ancestors(S, node);
  }

  lemma BelowInside(S: set<Node>, n: Node)
    requires Shape(S)
    ensures Below(S, n) <= S
  {}

  /** Nodes that agree with their children on one value fit them in both ways. */
  lemma UniformFits(n: Node, value: bool)
    requires IsSet(n, value)
    requires forall c <- n.children :: IsSet(c, value) && !c.nocheck && !c.chkDisabled && !c.halfCheck
    ensures StateFits(n) && CheckedLikeChildren(n)
  {
    var ms := Marks(n.children);
    forall i | 0 <= i < |ms| ensures Contribution(ms[i]) == if value then 2 else 0 {
      assert ms[i] == n.children[i].Flags();
    }
    if n.children != [] {
      assert ms[0] in ms && n.children[0] in n.children;
    }
  }

  /** A node whose children agree on a value, and that has it too, is checked like them. */
  lemma SelfFits(n: Node, value: bool)
    requires n.checked == value && forall c <- n.children :: c.checked == value
    ensures CheckedLikeChildren(n)
  {
    if n.children != [] {
      assert n.children[0] in n.children;
    }
  }

  /** In a consistent forest every ancestor of a checked node is checked. */
  lemma {:induction false} CheckedUpwards(S: set<Node>, x: Node)
    requires Shape(S) && x in S && x.checked && forall n <- S :: CheckedLikeChildren(n)
    ensures forall a <- Ancestors(S, x) :: a.checked
    decreases x.level
  {
    AncestorsAre(S, x);
    if x.parent != null {
      CheckedUpwards(S, x.parent);
    }
  }

  /** Untouched nodes with untouched children fit as before. */
  twostate lemma UntouchedFits(n: Node)
    requires unchanged(n) && forall c <- n.children :: old(allocated(c)) && unchanged(c)
    ensures old(StateFits(n)) ==> StateFits(n)
    ensures old(CheckedLikeChildren(n)) ==> CheckedLikeChildren(n)
  {
    SameMarks(n.children);
  }

  /** The nodes that checking `node` cannot reach. */
  ghost function Elsewhere(S: set<Node>, node: Node): set<Node>
    requires Shape(S) && node in S
    reads S`parent, S`children, S`level
  {
    S - Below(S, node) - Ancestors(S, node)
  }

  ghost predicate Fits(n: Node)
    reads n, n.children
  {
    StateFits(n) && CheckedLikeChildren(n)
  }

  /** Below the node, at the node, above it and elsewhere: that is the whole forest. */
  lemma PartsMakeConsistent(S: set<Node>, node: Node)
    requires Shape(S) && node in S && Plain(S)
    requires AllSet(Below(S, node) - {node}, node.checked) && StateFits(node)
    requires forall a <- Ancestors(S, node) :: StateFits(a) && CheckedLikeChildren(a)
    requires forall x <- Elsewhere(S, node) :: Fits(x)
    ensures Consistent(S) && forall x <- Below(S, node) :: x.checked == node.checked
  {
    hide Above, Below, Ancestors, StateFits, CheckedLikeChildren, IsSet;
    BelowAndAncestors(S, node);
    BelowInside(S, node);
    var value := node.checked;
    forall n <- S ensures StateFits(n) && CheckedLikeChildren(n) {
      if n == node {
        forall c <- n.children ensures c.checked == value {
          assert c in Below(S, node) - {node};
          SetMeansChecked(c, value);
        }
        SelfFits(n, value);
      } else if n in Below(S, node) {
        assert forall c <- n.children :: c in Below(S, node) - {node} && c in S;
        UniformFits(n, value);
      } else if n !in Ancestors(S, node) {
        assert Fits(n);
      }
    }
    forall x <- Below(S, node) ensures x.checked == value {
      if x != node {
        SetMeansChecked(x, value);
      }
    }
  }

  lemma SetMeansChecked(x: Node, value: bool)
    requires IsSet(x, value)
    ensures x.checked == value
  {}

  /** The changes `onCheckNode` makes once it is allowed to. */
  method Toggle(chkboxType: ChkboxType, node: Node, ghost S: set<Node>, ghost bound: nat)
    requires Shape(S) && node in S && forall x <- S :: x.level <= bound
    modifies S`checked, S`childState
    ensures chkboxType == DEFAULT && Plain(S)
            && (old(node.checked) ==> old(forall a <- Ancestors(S, node) :: a.checked)) ==>
              && node.checked != old(node.checked) && StateFits(node)
              && AllSet(Below(S, node) - {node}, node.checked)
              && forall a <- Ancestors(S, node) :: StateFits(a) && CheckedLikeChildren(a)
    ensures forall x <- Elsewhere(S, node) :: x.checked == old(x.checked) && x.childState == old(x.childState)
  {
    hide Above, Below, Ancestors, CheckedLikeChildren, IsSet, StateFits, Shape, Ready, Plain;
    BelowAndAncestors(S, node);
    BelowInside(S, node);
    node.checked := !node.checked;
    ReadyIs(S, node, node.checked);
    CheckNodeRelation(chkboxType, node, S, bound);
    Repair(node, S);
  }

  method Repair(node: Node, ghost S: set<Node>)
    requires Shape(S) && node in S
    modifies S`childState
    ensures forall a <- Ancestors(S, node) :: StateFits(a)
    ensures old(StateFits(node)) ==> StateFits(node)
    ensures forall x <- S - {node} - Ancestors(S, node) :: x.childState == old(x.childState)
  {
    RepairParentChkClassWithSelf(node, S);
  }

  /**
   `onCheckNode`: with default propagation on a plain forest the node and all its descendants take
   the new value, and both invariants hold again at every node of the forest.
   `allowed` is the answer of the `beforeCheck` callback.
   */
  method OnCheckNode(chkboxType: ChkboxType, allowed: bool, node: Node, ghost S: set<Node>, ghost bound: nat)
    returns (handled: bool)
    requires Shape(S) && node in S && forall x <- S :: x.level <= bound
    modifies S`checked, S`childState
    ensures handled == !node.chkDisabled
    ensures chkboxType == DEFAULT && allowed && Plain(S) && old(Consistent(S)) ==>
              Consistent(S) && forall x <- Below(S, node) :: x.checked != old(node.checked)
    ensures forall x <- Elsewhere(S, node) :: x.checked == old(x.checked) && x.childState == old(x.childState)
    ensures node.chkDisabled || !allowed ==>
              forall x <- S :: x.checked == old(x.checked) && x.childState == old(x.childState)
  {
    hide Above, Below, Ancestors, CheckedLikeChildren, StateFits, IsSet;
    if node.chkDisabled {
      return false;
    }
    if !allowed {
      return true;
    }
    if node.checked && Consistent(S) {
      CheckedUpwards(S, node);
    }
    Toggle(chkboxType, node, S, bound);
    if chkboxType == DEFAULT && Plain(S) && old(Consistent(S)) {
      BelowAndAncestors(S, node);
      forall x <- Elsewhere(S, node) ensures Fits(x) {
        UntouchedFits(x);
      }
      PartsMakeConsistent(S, node);
    }
    return true;
  }

  /** Any series of clicks keeps a plain forest consistent. */
  method Clicks(nodes: seq<Node>, ghost S: set<Node>, ghost bound: nat)
    requires Shape(S) && Plain(S) && Consistent(S) && forall x <- S :: x.level <= bound
    requires forall n <- nodes :: n in S
    modifies S`checked, S`childState
    ensures Consistent(S)
  {
    hide Consistent, Below, Above, Ancestors, Elsewhere;
    for i := 0 to |nodes|
      invariant Consistent(S)
    {
      var _ := OnCheckNode(DEFAULT, true, nodes[i], S, bound);
    }
  }

  // ---------- what the states mean ----------

  ghost predicate AllChecked(xs: set<Node>, value: bool)
    reads xs`checked
  {
    forall x <- xs :: x.checked == value
  }

  /** A child contributes 2 or 0 when its whole subtree is checked or unchecked. */
  lemma ChildContribution(S: set<Node>, c: Node)
    requires Shape(S) && c in S && Plain(S)
    requires c.childState == -1 <==> c.children == []
    requires c.childState == 2 <==> c.children != [] && AllChecked(Below(S, c) - {c}, true)
    requires c.childState == 0 <==> c.children != [] && AllChecked(Below(S, c) - {c}, false)
    ensures Contribution(c.Flags()) == 2 <==> AllChecked(Below(S, c), true)
    ensures Contribution(c.Flags()) == 0 <==> AllChecked(Below(S, c), false)
    ensures Contribution(c.Flags()) >= 0
  {
    hide Above;
    BelowIsNodeAndChildren(S, c);
    if c.children == [] {
      assert Below(S, c) == {c};
    }
    assert forall v :: AllChecked(Below(S, c), v) <==> c.checked == v && AllChecked(Below(S, c) - {c}, v);
  }

  /** Join is 2 (or 0) exactly when there are children and all contribute it. */
  lemma JoinIsUniform(ms: seq<Mark>, v: ChildState)
    requires forall m <- ms :: Contribution(m) >= 0
    requires v == 0 || v == 2
    ensures Join(ms) == v <==> ms != [] && forall m <- ms :: Contribution(m) == v
    ensures Join(ms) == -1 <==> ms == []
  {
    if ms != [] {
      assert ms[0] in ms;
      assert Contributes(ms, Contribution(ms[0]));
    }
  }

  /**
   When every state summarises the children, a state of 2, 0 or 1 means that all, none or some but
   not all of the descendants are checked, and -1 that there are none.
   */
  lemma {:induction false} StateMeaning(S: set<Node>, n: Node, bound: nat)
    requires Shape(S) && n in S && Plain(S) && (forall x <- S :: x.level <= bound && StateFits(x))
    ensures n.childState == -1 <==> n.children == []
    ensures n.childState == 2 <==> n.children != [] && AllChecked(Below(S, n) - {n}, true)
    ensures n.childState == 0 <==> n.children != [] && AllChecked(Below(S, n) - {n}, false)
    decreases bound - n.level
  {
    hide Above, Below, Join, Contribution;
    var ms := Marks(n.children);
    forall c <- n.children
      ensures Contribution(c.Flags()) >= 0
      ensures Contribution(c.Flags()) == 2 <==> AllChecked(Below(S, c), true)
      ensures Contribution(c.Flags()) == 0 <==> AllChecked(Below(S, c), false)
    {
      StateMeaning(S, c, bound);
      ChildContribution(S, c);
    }
    DescendantsAre(S, n);
    forall i | 0 <= i < |ms| ensures ms[i] == n.children[i].Flags() && n.children[i] in n.children {}
    JoinIsUniform(ms, 0);
    JoinIsUniform(ms, 2);
    AllContribute(n.children, 2);
    AllContribute(n.children, 0);
  }

  lemma AllContribute(ns: seq<Node>, v: ChildState)
    ensures (forall m <- Marks(ns) :: Contribution(m) == v) <==> (forall c <- ns :: Contribution(c.Flags()) == v)
  {
    hide Contribution;
    var ms := Marks(ns);
    forall c <- ns ensures c.Flags() in ms {
      var i :| 0 <= i < |ns| && ns[i] == c;
      assert ms[i] == c.Flags();
    }
    forall m <- ms ensures exists c <- ns :: m == c.Flags() {
      var i :| 0 <= i < |ms| && ms[i] == m;
      assert ns[i] in ns && m == ns[i].Flags();
    }
  }

  /** The descendants are what lies below the children. */
  lemma DescendantsAre(S: set<Node>, n: Node)
    requires Shape(S) && n in S
    ensures forall v :: AllChecked(Below(S, n) - {n}, v) <==> forall c <- n.children :: AllChecked(Below(S, c), v)
  {
    BelowIsNodeAndChildren(S, n);
    BelowAndAncestors(S, n);
    forall x: Node ensures x in Below(S, n) - {n} <==> exists c <- n.children :: x in Below(S, c) {
      BelowAllIs(S, n.children, x);
      if c :| c in n.children && x in Below(S, c) {
        AboveIsHigher(S, c, x);
      }
    }
  }

  datatype CheckStatus = CheckStatus(checked: bool, half: bool)

  /** `getCheckStatus` for check boxes; null for nodes that opt out. */
  function GetCheckStatus(n: Node): Option<CheckStatus>
    reads n
  {
    if n.nocheck || n.chkDisabled then None
    else Some(CheckStatus(n.checked,
                          if n.halfCheck then true
                          else if n.checked then n.childState > -1 && n.childState < 2
                          else n.childState > 0))
  }

  /** Nodes that opt out have no status, and a fixed half state is reported as it is. */
  lemma StatusOfOthers(n: Node)
    ensures GetCheckStatus(n).None? <==> n.nocheck || n.chkDisabled
    ensures !n.nocheck && !n.chkDisabled && n.halfCheck ==> GetCheckStatus(n) == Some(CheckStatus(n.checked, true))
  {}

  /** `half` is reported exactly for subtrees that are neither wholly checked nor wholly unchecked. */
  lemma HalfMeansMixed(S: set<Node>, n: Node, bound: nat)
    requires Shape(S) && n in S && Plain(S) && (forall x <- S :: x.level <= bound && StateFits(x))
    ensures GetCheckStatus(n).Some? && GetCheckStatus(n).value.checked == n.checked
    ensures GetCheckStatus(n).value.half <==> exists x <- Below(S, n), y <- Below(S, n) :: x.checked != y.checked
  {
    hide Above, Below, StateFits;
    StateMeaning(S, n, bound);
    BelowAndAncestors(S, n);
    BelowIsNodeAndChildren(S, n);
    if n.children == [] {
      assert Below(S, n) == {n};
    } else if !GetCheckStatus(n).value.half {
      assert AllChecked(Below(S, n) - {n}, n.checked);
    } else {
      var x :| x in Below(S, n) - {n} && x.checked != n.checked;
    }
  }
}
