/**
 The capability delegation tree as a value: the two maps the daemon keeps, the forest
 invariant that ties them together, and what delegation, revocation and removal make of them.
 */
module CapabilityForest {
  import opened Lists

  datatype CapabilityNode = CapabilityNode(id: string, parentId: string, capabilities: set<string>, depth: int)

  /** `children` lists, for every node, the nodes delegated from it, oldest first. */
  datatype Tree = Tree(nodes: map<string, CapabilityNode>, children: map<string, seq<string>>)

  const ROOT := "daemon"
  /** The parent id of a node that has no parent. */
  const NO_PARENT := ""

  // ---- the invariant ----

  /** The node knows its name and its depth, and its parent lists it. */
  ghost predicate NodeLinked(t: Tree, x: string)
    requires x in t.nodes
  {
    var n := t.nodes[x];
    && n.id == x
    && 0 <= n.depth
    && (n.parentId == NO_PARENT <==> x == ROOT)
    && (n.parentId == NO_PARENT ==> n.depth == 0)
    && (n.parentId != NO_PARENT ==>
          && n.parentId in t.nodes
          && n.parentId in t.children
          && n.depth == t.nodes[n.parentId].depth + 1
          && x in t.children[n.parentId])
  }

  /** A child list names existing nodes other than the root, each once, that name this node as their parent. */
  ghost predicate ListLinked(t: Tree, p: string)
    requires p in t.children
  {
    && NoDuplicates(t.children[p])
    && forall c | c in t.children[p] :: c in t.nodes && c != ROOT && t.nodes[c].parentId == p
  }

  ghost predicate Forest(t: Tree) {
    && t.nodes.Keys == t.children.Keys
    && (forall x | x in t.nodes :: NodeLinked(t, x))
    && (forall p | p in t.children :: ListLinked(t, p))
  }

  /** The rule `validateInvariant` checks: parents exist and hold what their children hold. */
  ghost predicate SubsetRule(t: Tree) {
    forall x | x in t.nodes && t.nodes[x].parentId != NO_PARENT ::
      t.nodes[x].parentId in t.nodes && t.nodes[x].capabilities <= t.nodes[t.nodes[x].parentId].capabilities
  }

  ghost predicate Good(t: Tree) {
    Forest(t) && SubsetRule(t)
  }

  // ---- descent along parent links ----

  /** `x` is `a` or descends from it. */
  ghost predicate Below(t: Tree, a: string, x: string)
    requires Forest(t) && x in t.nodes
    decreases t.nodes[x].depth
  {
    assert NodeLinked(t, x);
    x == a || (t.nodes[x].parentId != NO_PARENT && Below(t, a, t.nodes[x].parentId))
  }

  ghost function Subtree(t: Tree, a: string): set<string>
    requires Forest(t)
  {
    set x | x in t.nodes && Below(t, a, x)
  }

  /** Everything below some member of `ids`. */
  ghost function Cover(t: Tree, ids: seq<string>): set<string>
    requires Forest(t)
  {
    set x | x in t.nodes && exists k | k in ids :: Below(t, k, x)
  }

  /** The ancestors of `x`, nearest first. */
  ghost function Ancestors(t: Tree, x: string): (chain: seq<string>)
    requires Forest(t) && x in t.nodes
    ensures |chain| == t.nodes[x].depth
    ensures forall a :: a in chain <==> a != x && Below(t, a, x)
    decreases t.nodes[x].depth
  {
    assert NodeLinked(t, x);
    var p := t.nodes[x].parentId;
    if p == NO_PARENT then [] else
      BelowIsShallower(t, x, p);
      [p] + Ancestors(t, p)
  }

  lemma {:induction false} BelowIsShallower(t: Tree, a: string, x: string)
    requires Forest(t) && x in t.nodes
    ensures Below(t, a, x) ==> a in t.nodes && (a == x || t.nodes[a].depth < t.nodes[x].depth)
    decreases t.nodes[x].depth
  {
    assert NodeLinked(t, x);
    if x != a && t.nodes[x].parentId != NO_PARENT {
      BelowIsShallower(t, a, t.nodes[x].parentId);
    }
  }

  lemma {:induction false} BelowTransitive(t: Tree, a: string, b: string, x: string)
    requires Forest(t) && x in t.nodes && b in t.nodes
    requires Below(t, a, b) && Below(t, b, x)
    ensures Below(t, a, x)
    decreases t.nodes[x].depth
  {
    assert NodeLinked(t, x);
    if x != b {
      BelowTransitive(t, a, b, t.nodes[x].parentId);
    }
  }

  /** Two nodes of one depth share no descendant. */
  lemma {:induction false} BelowUnique(t: Tree, a: string, b: string, x: string)
    requires Forest(t) && x in t.nodes && a in t.nodes && b in t.nodes
    requires t.nodes[a].depth == t.nodes[b].depth
    requires Below(t, a, x) && Below(t, b, x)
    ensures a == b
    decreases t.nodes[x].depth
  {
    assert NodeLinked(t, x);
    BelowIsShallower(t, a, x);
    BelowIsShallower(t, b, x);
    if x != a && x != b {
      BelowUnique(t, a, b, t.nodes[x].parentId);
    }
  }

  /** Descent is the same in two forests that agree on parents. */
  lemma {:induction false} BelowStable(t: Tree, u: Tree, a: string, x: string)
    requires Forest(t) && Forest(u) && u.nodes.Keys <= t.nodes.Keys && x in u.nodes
    requires forall y | y in u.nodes :: u.nodes[y].parentId == t.nodes[y].parentId
    ensures Below(u, a, x) == Below(t, a, x)
    decreases u.nodes[x].depth
  {
    assert NodeLinked(u, x);
    if u.nodes[x].parentId != NO_PARENT {
      BelowStable(t, u, a, u.nodes[x].parentId);
    }
  }

  /** A proper descendant of `n` is below one of the children `n` lists. */
  lemma {:induction false} BelowThroughChild(t: Tree, n: string, x: string) returns (k: string)
    requires Forest(t) && n in t.nodes && x in t.nodes && Below(t, n, x) && x != n
    ensures k in t.children[n] && Below(t, k, x)
    decreases t.nodes[x].depth
  {
    assert NodeLinked(t, x);
    var p := t.nodes[x].parentId;
    if p == n {
      k := x;
    } else {
      k := BelowThroughChild(t, n, p);
    }
  }

  lemma SubtreeUnfolds(t: Tree, n: string)
    requires Forest(t) && n in t.nodes
    ensures Subtree(t, n) == {n} + Cover(t, t.children[n])
    ensures n !in Cover(t, t.children[n])
  {
    assert ListLinked(t, n);
    forall x | x in Subtree(t, n) && x != n
      ensures x in Cover(t, t.children[n])
    {
      var k := BelowThroughChild(t, n, x);
    }
    forall x, k | x in t.nodes && k in t.children[n] && Below(t, k, x)
      ensures Below(t, n, x) && x != n
    {
      assert NodeLinked(t, k);
      assert Below(t, n, n) && Below(t, n, k);
      BelowTransitive(t, n, k, x);
      BelowIsShallower(t, k, x);
    }
  }

  /** Siblings have disjoint subtrees, so a child adds its whole subtree to its elders'. */
  lemma CoverExtends(t: Tree, n: string, i: nat)
    requires Forest(t) && n in t.nodes && i < |t.children[n]|
    ensures var kids := t.children[n];
            && Cover(t, kids[..i + 1]) == Cover(t, kids[..i]) + Subtree(t, kids[i])
            && Cover(t, kids[..i]) !! Subtree(t, kids[i])
            && Subtree(t, kids[i]) <= Cover(t, kids)
  {
    var kids := t.children[n];
    assert ListLinked(t, n);
    assert kids[..i + 1] == kids[..i] + [kids[i]];
    forall x, k | x in t.nodes && k in kids[..i] && Below(t, k, x) && Below(t, kids[i], x)
      ensures false
    {
      assert NodeLinked(t, k) && NodeLinked(t, kids[i]);
      BelowUnique(t, k, kids[i], x);
    }
  }

  lemma SubtreeOfAbsent(t: Tree, n: string)
    requires Forest(t) && n !in t.nodes
    ensures Subtree(t, n) == {}
  {
    forall x | x in t.nodes ensures !Below(t, n, x) {
      BelowIsShallower(t, n, x);
    }
  }

  /** A node other than the root is in its parent's list, once, and in no other; the root is in none. */
  lemma ListedExactlyOnce(t: Tree, x: string, p: string)
    requires Forest(t) && x in t.nodes && p in t.children
    ensures multiset(t.children[p])[x] == if x != ROOT && p == t.nodes[x].parentId then 1 else 0
  {
    assert NodeLinked(t, x) && ListLinked(t, p);
    CountOfListed(t.children[p], x);
  }

  /** Every node descends from the root, so a forest without the root is empty. */
  lemma {:induction false} EverythingBelowRoot(t: Tree, x: string)
    requires Forest(t) && x in t.nodes
    ensures ROOT in t.nodes && Below(t, ROOT, x)
    decreases t.nodes[x].depth
  {
    assert NodeLinked(t, x);
    if x != ROOT {
      EverythingBelowRoot(t, t.nodes[x].parentId);
    }
  }

  /** A capability a node holds is held by all of its ancestors. */
  lemma {:induction false} HeldByAncestors(t: Tree, a: string, x: string)
    requires Good(t) && x in t.nodes && Below(t, a, x)
    ensures a in t.nodes && t.nodes[x].capabilities <= t.nodes[a].capabilities
    decreases t.nodes[x].depth
  {
    assert NodeLinked(t, x);
    if x != a {
      HeldByAncestors(t, a, t.nodes[x].parentId);
    }
  }

  // ---- operations ----

  function InitialTree(all: set<string>): Tree {
    Tree(map[ROOT := CapabilityNode(ROOT, NO_PARENT, all, 0)], map[ROOT := []])
  }

  predicate DelegationAllowed(t: Tree, parent: string, child: string, caps: set<string>) {
    parent in t.nodes && child !in t.nodes && caps <= t.nodes[parent].capabilities
  }

  function Listed(t: Tree, p: string): seq<string> {
    if p in t.children then t.children[p] else []
  }

  function Delegated(t: Tree, parent: string, child: string, caps: set<string>): Tree {
    if !DelegationAllowed(t, parent, child, caps) then t else
      Tree(t.nodes[child := CapabilityNode(child, parent, caps, t.nodes[parent].depth + 1)],
           t.children[parent := Listed(t, parent) + [child]][child := []])
  }

  /** Takes `c` away from the members of `S`. */
  function Strip(t: Tree, S: set<string>, c: string): Tree {
    t.(nodes := map x | x in t.nodes ::
                  if x in S then t.nodes[x].(capabilities := t.nodes[x].capabilities - {c}) else t.nodes[x])
  }

  ghost function Holders(t: Tree, S: set<string>, c: string): set<string> {
    set x | x in S && x in t.nodes && c in t.nodes[x].capabilities
  }

  /** Deletes the members of `S` from both maps and from every child list. */
  function Prune(t: Tree, S: set<string>): Tree {
    Tree(map x | x in t.nodes && x !in S :: t.nodes[x],
         map p | p in t.children && p !in S :: Keep(t.children[p], S))
  }

  /** What removing one node does once its own children are gone. */
  function Detach(t: Tree, n: string): Tree {
    var children := t.children - {n};
    var unlinked :=
      if n in t.nodes && t.nodes[n].parentId != NO_PARENT && t.nodes[n].parentId in children
      then children[t.nodes[n].parentId := Keep(children[t.nodes[n].parentId], {n})]
      else children;
    Tree(t.nodes - {n}, unlinked)
  }

  // ---- what the operations keep ----

  lemma InitialTreeIsGood(all: set<string>)
    ensures Good(InitialTree(all))
  {
  }

  lemma DelegatedNodeLinked(t: Tree, parent: string, child: string, caps: set<string>, x: string)
    requires Forest(t) && DelegationAllowed(t, parent, child, caps) && parent != NO_PARENT
    requires x in Delegated(t, parent, child, caps).nodes
    ensures NodeLinked(Delegated(t, parent, child, caps), x)
  {
    EverythingBelowRoot(t, parent);
    assert NodeLinked(t, parent);
    if x == child {
      assert child in Delegated(t, parent, child, caps).children[parent];
    } else {
      assert NodeLinked(t, x);
      var p := t.nodes[x].parentId;
      if p == parent {
        assert x in Delegated(t, parent, child, caps).children[p];
      }
    }
  }

  lemma DelegatedListLinked(t: Tree, parent: string, child: string, caps: set<string>, p: string)
    requires Forest(t) && DelegationAllowed(t, parent, child, caps) && parent != NO_PARENT
    requires p in Delegated(t, parent, child, caps).children
    ensures ListLinked(Delegated(t, parent, child, caps), p)
  {
    EverythingBelowRoot(t, parent);
    if p != child {
      assert ListLinked(t, p);
    }
  }

  lemma DelegatedKeys(t: Tree, parent: string, child: string, caps: set<string>)
    requires Forest(t) && DelegationAllowed(t, parent, child, caps)
    ensures Delegated(t, parent, child, caps).nodes.Keys == t.nodes.Keys + {child}
    ensures Delegated(t, parent, child, caps).children.Keys == t.children.Keys + {child}
  {
  }

  lemma ChildOfEmptyUnlinked(t: Tree, child: string, caps: set<string>)
    requires Forest(t) && DelegationAllowed(t, NO_PARENT, child, caps)
    ensures child in Delegated(t, NO_PARENT, child, caps).nodes
    ensures !NodeLinked(Delegated(t, NO_PARENT, child, caps), child)
  {
    EverythingBelowRoot(t, NO_PARENT);
  }

  /** Delegation keeps the forest exactly when it is refused or does not come from a node with the empty id. */
  lemma DelegatedKeepsForest(t: Tree, parent: string, child: string, caps: set<string>)
    requires Forest(t)
    ensures Forest(Delegated(t, parent, child, caps))
            <==> (parent != NO_PARENT || !DelegationAllowed(t, parent, child, caps))
  {
    if DelegationAllowed(t, parent, child, caps) {
      var u := Delegated(t, parent, child, caps);
      if parent == NO_PARENT {
        ChildOfEmptyUnlinked(t, child, caps);
      } else {
        forall x | x in u.nodes ensures NodeLinked(u, x) {
          DelegatedNodeLinked(t, parent, child, caps, x);
        }
        forall p | p in u.children ensures ListLinked(u, p) {
          DelegatedListLinked(t, parent, child, caps, p);
        }
        DelegatedKeys(t, parent, child, caps);
      }
    }
  }

  lemma DelegatedKeepsRule(t: Tree, parent: string, child: string, caps: set<string>)
    requires Good(t)
    ensures SubsetRule(Delegated(t, parent, child, caps))
  {
  }

  /**
   What breaks: a node delegated from the node called "" looks parentless, so detaching it
   leaves its name behind in a child list.
   */
  lemma EmptyParentLeavesDanglingChild(t: Tree, x: string, caps: set<string>)
    requires Forest(t) && DelegationAllowed(t, NO_PARENT, x, caps)
    ensures var u := Delegated(t, NO_PARENT, x, caps);
            && x in u.nodes && u.children[x] == []
            && x !in Detach(u, x).nodes
            && NO_PARENT in Detach(u, x).children && x in Detach(u, x).children[NO_PARENT]
  {
  }

  lemma StripNodeLinked(t: Tree, S: set<string>, c: string, x: string)
    requires Forest(t) && x in t.nodes
    ensures NodeLinked(Strip(t, S, c), x) && ListLinked(Strip(t, S, c), x)
  {
  }

  lemma StripKeepsForest(t: Tree, S: set<string>, c: string)
    requires Forest(t)
    ensures Forest(Strip(t, S, c))
  {
    var u := Strip(t, S, c);
    assert u.nodes.Keys == t.nodes.Keys && u.children == t.children;
    forall x | x in t.nodes.Keys ensures NodeLinked(u, x) && ListLinked(u, x) {
      StripNodeLinked(t, S, c, x);
    }
  }

  lemma StripKeepsSubtree(t: Tree, S: set<string>, c: string, a: string)
    requires Forest(t)
    ensures Forest(Strip(t, S, c)) && Subtree(Strip(t, S, c), a) == Subtree(t, a)
  {
    StripKeepsForest(t, S, c);
    forall x | x in t.nodes ensures Below(Strip(t, S, c), a, x) == Below(t, a, x) {
      BelowStable(t, Strip(t, S, c), a, x);
    }
  }

  lemma StripSubtreeKeepsRule(t: Tree, n: string, c: string)
    requires Good(t)
    ensures Good(Strip(t, Subtree(t, n), c))
  {
    StripKeepsForest(t, Subtree(t, n), c);
    forall x | x in t.nodes && t.nodes[x].parentId != NO_PARENT && t.nodes[x].parentId in Subtree(t, n)
      ensures x in Subtree(t, n)
    {
      assert NodeLinked(t, x);
    }
  }

  ghost predicate DownClosed(t: Tree, S: set<string>) {
    forall x | x in t.nodes && t.nodes[x].parentId != NO_PARENT && t.nodes[x].parentId in S :: x in S
  }

  lemma SubtreeDownClosed(t: Tree, n: string)
    requires Forest(t)
    ensures DownClosed(t, Subtree(t, n))
  {
  }

  lemma CoverDownClosed(t: Tree, ids: seq<string>)
    requires Forest(t)
    ensures DownClosed(t, Cover(t, ids))
  {
  }

  lemma PruneKeepsForest(t: Tree, S: set<string>)
    requires Forest(t) && DownClosed(t, S)
    ensures Forest(Prune(t, S))
    ensures SubsetRule(t) ==> SubsetRule(Prune(t, S))
  {
    var u := Prune(t, S);
    forall x | x in u.nodes ensures NodeLinked(u, x) {
      assert NodeLinked(t, x);
      var p := t.nodes[x].parentId;
      if p != NO_PARENT { KeepMembers(t.children[p], S); }
    }
    forall p | p in u.children ensures ListLinked(u, p) {
      assert ListLinked(t, p);
      KeepMembers(t.children[p], S);
    }
  }

  lemma PruneShrinksSubtree(t: Tree, S: set<string>, a: string)
    requires Forest(t) && DownClosed(t, S)
    ensures Forest(Prune(t, S)) && Subtree(Prune(t, S), a) == Subtree(t, a) - S
  {
    PruneKeepsForest(t, S);
    var u := Prune(t, S);
    forall x | x in u.nodes ensures Below(u, a, x) == Below(t, a, x) {
      BelowStable(t, u, a, x);
    }
  }

  lemma PruneTwice(t: Tree, A: set<string>, B: set<string>)
    ensures Prune(Prune(t, A), B) == Prune(t, A + B)
  {
    forall p | p in t.children && p !in A + B
      ensures Keep(Keep(t.children[p], A), B) == Keep(t.children[p], A + B)
    {
      KeepTwice(t.children[p], A, B);
    }
    assert Prune(Prune(t, A), B).nodes == Prune(t, A + B).nodes;
    assert Prune(Prune(t, A), B).children == Prune(t, A + B).children;
  }

  lemma PruneNothing(t: Tree)
    ensures Prune(t, {}) == t
  {
    forall p | p in t.children ensures Keep(t.children[p], {}) == t.children[p] {
      KeepExtremes(t.children[p], {});
    }
    assert Prune(t, {}).nodes == t.nodes && Prune(t, {}).children == t.children;
  }

  lemma DetachedList(t: Tree, n: string, p: string)
    requires Forest(t) && n in t.nodes && p in t.children && p != n
    ensures p in Detach(t, n).children
    ensures Detach(t, n).children[p] == Keep(t.children[p], {n})
  {
    assert NodeLinked(t, n) && ListLinked(t, p);
    KeepExtremes(t.children[p], {n});
  }

  lemma DetachedKeys(t: Tree, n: string)
    requires Forest(t) && n in t.nodes
    ensures Detach(t, n).children.Keys == t.children.Keys - {n}
    ensures Detach(t, n).nodes == Prune(t, {n}).nodes
  {
  }

  /** With its children gone, removing a node is pruning it alone. */
  lemma DetachIsPrune(t: Tree, n: string)
    requires Forest(t) && n in t.nodes
    ensures Detach(t, n) == Prune(t, {n})
  {
    var d, u := Detach(t, n).children, Prune(t, {n}).children;
    DetachedKeys(t, n);
    assert u.Keys == t.children.Keys - {n};
    forall p | p in u.Keys ensures d[p] == u[p] {
      DetachedList(t, n, p);
    }
    assert d == u;
  }

  /**
   Removal in terms of the lists: the parent's list loses `n` and keeps its order, every other
   surviving list is untouched, and no list names a removed node.
   */
  lemma PruneSubtreeLists(t: Tree, n: string, p: string)
    requires Forest(t) && p in t.children && p !in Subtree(t, n)
    ensures Prune(t, Subtree(t, n)).children[p]
            == (if n in t.nodes && t.nodes[n].parentId == p then Keep(t.children[p], {n}) else t.children[p])
    ensures forall x | x in Prune(t, Subtree(t, n)).children[p] :: x in Prune(t, Subtree(t, n)).nodes
  {
    var S := Subtree(t, n);
    assert ListLinked(t, p);
    forall x | x in t.children[p] && x in S ensures x == n {
      assert NodeLinked(t, x);
    }
    KeepMembers(t.children[p], S);
    KeepExtremes(t.children[p], S);
    if n in t.nodes && t.nodes[n].parentId == p {
      KeepSame(t.children[p], S, {n});
    } else {
      assert n in t.children[p] ==> n in t.nodes;
    }
  }
}
