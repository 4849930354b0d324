/** The daemon's mutable delegation tree. Each method runs under the lock, so each is one atomic step. */
module CapabilityTrees {
  import opened CapabilityForest
  import opened Lists

  class CapabilityTree {
    var nodes: map<string, CapabilityNode>
    var children: map<string, seq<string>>

    ghost function State(): Tree
      reads this
    {
      Tree(nodes, children)
    }

    constructor ()
      ensures Good(State()) && nodes == map[]
    {
      nodes, children := map[], map[];
    }

    method InitRoot(all: set<string>)
      modifies this
      ensures nodes.Keys == {"daemon"} && nodes["daemon"] == CapabilityNode("daemon", "", all, 0)
      ensures children.Keys == {"daemon"} && children["daemon"] == []
      ensures State() == InitialTree(all) && Good(State())
    {
      nodes, children := map[], map[];
      nodes := nodes[ROOT := CapabilityNode(ROOT, NO_PARENT, all, 0)];
      children := children[ROOT := []];
      InitialTreeIsGood(all);
    }

    /**
     Accepted exactly when the parent exists, the child does not and the parent holds all of `caps`;
     then the child holds just `caps`, one level below, last in its parent's list.
     */
    method Delegate(parent: string, child: string, caps: set<string>) returns (ok: bool)
      modifies this
      ensures ok <==> old(parent in nodes && child !in nodes && caps <= nodes[parent].capabilities)
      ensures !ok ==> nodes == old(nodes) && children == old(children)
      ensures ok ==> nodes == old(nodes[child := CapabilityNode(child, parent, caps, nodes[parent].depth + 1)])
      ensures ok ==> child in children && children[child] == []
      ensures ok ==> parent in children && children[parent] == old(Listed(State(), parent)) + [child]
      ensures forall p | p != parent && p != child :: p in children <==> old(p in children)
      ensures forall p | p in children && p != parent && p != child :: children[p] == old(children)[p]
      ensures State() == Delegated(old(State()), parent, child, caps)
      ensures old(Forest(State())) ==> (Forest(State()) <==> (parent != NO_PARENT || !ok))
      ensures old(Good(State())) ==> SubsetRule(State())
    {
      if Forest(State()) { DelegatedKeepsForest(State(), parent, child, caps); }
      if Good(State()) { DelegatedKeepsRule(State(), parent, child, caps); }
      ok := Link(parent, child, caps);
    }

    method Link(parent: string, child: string, caps: set<string>) returns (ok: bool)
      modifies this
      ensures ok == DelegationAllowed(old(State()), parent, child, caps)
      ensures State() == Delegated(old(State()), parent, child, caps)
    {
      if parent !in nodes { return false; }
      if child in nodes { return false; }
      var allowed := HoldsAll(parent, caps);
      if !allowed { return false; }
      var node := CapabilityNode(child, parent, caps, nodes[parent].depth + 1);
      nodes := nodes[child := node];
      children := children[parent := (if parent in children then children[parent] else []) + [child]];
      children := children[child := []];
      return true;
    }

    /** The capability scan of `delegate` and of `validateInvariant`. */
    method HoldsAll(node: string, caps: set<string>) returns (ok: bool)
      requires node in nodes
      ensures ok <==> caps <= nodes[node].capabilities
    {
      var rest := caps;
      while rest != {}
        invariant rest <= caps && caps - rest <= nodes[node].capabilities
      {
        var cap :| cap in rest;
        if cap !in nodes[node].capabilities { return false; }
        rest := rest - {cap};
      }
      return true;
    }

    /** Takes `cap` from the node and from everything below it, and says how many nodes held it. */
    method Revoke(node: string, cap: string) returns (count: nat)
      requires Forest(State())
      modifies this`nodes
      ensures State() == Strip(old(State()), Subtree(old(State()), node), cap)
      ensures TakenBelow(old(State()), State(), node, cap)
      ensures count == |Holders(old(State()), Subtree(old(State()), node), cap)|
      ensures Forest(State()) && (SubsetRule(old(State())) ==> SubsetRule(State()))
    {
      ghost var t := State();
      count := 0;
      count := RevokeRecursive(node, cap, count);
      StripTakesBelow(t, node, cap);
      StripKeepsForest(t, Subtree(t, node), cap);
      if SubsetRule(t) { StripSubtreeKeepsRule(t, node, cap); }
    }

    method EraseCapability(node: string, cap: string) returns (erased: bool)
      requires node in nodes
      modifies this`nodes
      ensures State() == Strip(old(State()), {node}, cap)
      ensures |Holders(old(State()), {node}, cap)| == if erased then 1 else 0
    {
      StripOne(State(), node, cap);
      erased := cap in nodes[node].capabilities;
      if erased {
        nodes := nodes[node := nodes[node].(capabilities := nodes[node].capabilities - {cap})];
      }
    }

    method RevokeRecursive(node: string, cap: string, count: nat) returns (total: nat)
      requires Forest(State())
      modifies this`nodes
      ensures State() == Strip(old(State()), Subtree(old(State()), node), cap)
      ensures total == count + |Holders(old(State()), Subtree(old(State()), node), cap)|
      decreases Subtree(State(), node)
    {
      ghost var t := State();
      total := count;
      if node !in nodes {
        SubtreeOfAbsent(t, node);
        return;
      }
      RevokeStarts(t, node);
      var erased := EraseCapability(node, cap);
      if erased { total := total + 1; }
      if node in children {
        var kids := children[node];
        for i := 0 to |kids|
          invariant State() == Strip(t, Reached(t, node, i), cap)
          invariant total == count + |Holders(t, Reached(t, node, i), cap)|
        {
          RevokeContinues(t, node, i, cap);
          total := RevokeRecursive(kids[i], cap, total);
        }
      }
    }

    /** Deletes the node and everything below it. */
    method RemoveSubtree(node: string)
      requires Forest(State())
      modifies this
      ensures State() == Prune(old(State()), Subtree(old(State()), node))
      ensures GoneBelow(old(State()), State(), node)
      ensures Forest(State()) && (SubsetRule(old(State())) ==> SubsetRule(State()))
    {
      ghost var t := State();
      RemoveRecursive(node);
      SubtreeDownClosed(t, node);
      PruneKeepsForest(t, Subtree(t, node));
    }

    method RemoveRecursive(node: string)
      requires Forest(State())
      modifies this
      ensures State() == Prune(old(State()), Subtree(old(State()), node))
      decreases Subtree(State(), node)
    {
      ghost var t := State();
      if node !in nodes {
        RemoveAbsent(t, node);
      } else {
        RemoveStarts(t, node);
      }
      if node in children {
        var kids := children[node];
        for i := 0 to |kids|
          invariant State() == Prune(t, Cover(t, kids[..i]))
        {
          RemoveContinues(t, node, i);
          RemoveRecursive(kids[i]);
        }
        RemoveEnds(t, node);
      }
      Unlink(node);
    }

    /** The end of the walk: drop the node's list, take it out of its parent's, forget it. */
    method Unlink(node: string)
      modifies this
      ensures State() == Detach(old(State()), node)
    {
      children := children - {node};
      if node in nodes && nodes[node].parentId != NO_PARENT {
        var p := nodes[node].parentId;
        if p in children {
          children := children[p := Keep(children[p], {node})];
        }
      }
      nodes := nodes - {node};
    }

    /** True exactly when every non-root node's parent exists and holds all the node holds. */
    method ValidateInvariant() returns (ok: bool)
      ensures ok <==> SubsetRule(State())
    {
      var ids := nodes.Keys;
      while ids != {}
        invariant ids <= nodes.Keys
        invariant forall x | x in nodes.Keys - ids && nodes[x].parentId != NO_PARENT ::
                    nodes[x].parentId in nodes && nodes[x].capabilities <= nodes[nodes[x].parentId].capabilities
      {
        var id :| id in ids;
        ids := ids - {id};
        if nodes[id].parentId == NO_PARENT { continue; }
        if nodes[id].parentId !in nodes { return false; }
        var held := HoldsAll(nodes[id].parentId, nodes[id].capabilities);
        if !held { return false; }
      }
      return true;
    }

    /** In a good tree a positive answer vouches for the whole ancestor chain. */
    method HasCapability(node: string, cap: string) returns (held: bool)
      ensures held <==> node in nodes && cap in nodes[node].capabilities
      ensures held && Good(State()) ==>
                forall a | a in Ancestors(State(), node) :: a in Holders(State(), nodes.Keys, cap)
    {
      if node !in nodes { return false; }
      held := cap in nodes[node].capabilities;
      if held && Good(State()) {
        forall a | a in Ancestors(State(), node)
          ensures a in nodes && nodes[node].capabilities <= nodes[a].capabilities
        {
          HeldByAncestors(State(), a, node);
        }
      }
    }

    /** The stored depth, in a forest the number of ancestors; -1 for a node that is not there. */
    method DepthOf(node: string) returns (depth: int)
      ensures depth == if node in nodes then nodes[node].depth else -1
      ensures Forest(State()) && node in nodes ==> depth == |Ancestors(State(), node)|
    {
      depth := if node in nodes then nodes[node].depth else -1;
    }
  }

  /** From `t` to `u` the nodes below `n` lose `c`, and that is all. */
  ghost predicate TakenBelow(t: Tree, u: Tree, n: string, c: string)
    requires Forest(t)
  {
    && u.children == t.children && u.nodes.Keys == t.nodes.Keys
    && forall x | x in t.nodes ::
         u.nodes[x] == if Below(t, n, x) then t.nodes[x].(capabilities := t.nodes[x].capabilities - {c}) else t.nodes[x]
  }

  lemma StripTakesBelow(t: Tree, n: string, c: string)
    requires Forest(t)
    ensures TakenBelow(t, Strip(t, Subtree(t, n), c), n, c)
  {
  }

  /** From `t` to `u` the nodes below `n` disappear, the others stay as they are. */
  ghost predicate GoneBelow(t: Tree, u: Tree, n: string)
    requires Forest(t)
  {
    && (forall x :: x in u.nodes <==> x in t.nodes && !Below(t, n, x))
    && (forall x | x in u.nodes :: u.nodes[x] == t.nodes[x])
  }

  lemma StripOne(t: Tree, n: string, c: string)
    requires n in t.nodes
    ensures Strip(t, {n}, c) == if c in t.nodes[n].capabilities
                                then t.(nodes := t.nodes[n := t.nodes[n].(capabilities := t.nodes[n].capabilities - {c})])
                                else t
    ensures |Holders(t, {n}, c)| == if c in t.nodes[n].capabilities then 1 else 0
  {
    if c in t.nodes[n].capabilities {
      assert Holders(t, {n}, c) == {n};
      assert Strip(t, {n}, c).nodes == t.nodes[n := t.nodes[n].(capabilities := t.nodes[n].capabilities - {c})];
    } else {
      assert t.nodes[n].capabilities - {c} == t.nodes[n].capabilities;
      assert Strip(t, {n}, c).nodes == t.nodes;
    }
  }

  /** What the cascade has reached after `i` children: the node and the first `i` child subtrees. */
  ghost function Reached(t: Tree, n: string, i: nat): set<string>
    requires Forest(t) && n in t.nodes && i <= |t.children[n]|
  {
    {n} + Cover(t, t.children[n][..i])
  }

  lemma RevokeStarts(t: Tree, n: string)
    requires Forest(t) && n in t.nodes
    ensures Reached(t, n, 0) == {n}
    ensures Reached(t, n, |t.children[n]|) == Subtree(t, n)
  {
    SubtreeUnfolds(t, n);
    assert t.children[n][..|t.children[n]|] == t.children[n];
  }

  lemma RevokeContinues(t: Tree, n: string, i: nat, c: string)
    requires Forest(t) && n in t.nodes && i < |t.children[n]|
    ensures var kid, done := t.children[n][i], Strip(t, Reached(t, n, i), c);
            && Forest(done)
            && Subtree(done, kid) < Subtree(t, n)
            && Strip(done, Subtree(done, kid), c) == Strip(t, Reached(t, n, i + 1), c)
            && |Holders(t, Reached(t, n, i + 1), c)|
               == |Holders(t, Reached(t, n, i), c)| + |Holders(done, Subtree(done, kid), c)|
  {
    var kid := t.children[n][i];
    SubtreeUnfolds(t, n);
    CoverExtends(t, n, i);
    StripKeepsSubtree(t, Reached(t, n, i), c, kid);
    assert Reached(t, n, i + 1) == Reached(t, n, i) + Subtree(t, kid);
    assert n in Subtree(t, n) && n !in Subtree(t, kid);
    StripMore(t, Reached(t, n, i), Subtree(t, kid), c);
  }

  lemma RemoveAbsent(t: Tree, n: string)
    requires Forest(t) && n !in t.nodes
    ensures Prune(t, Subtree(t, n)) == t && Detach(t, n) == t
  {
    SubtreeOfAbsent(t, n);
    PruneNothing(t);
  }

  lemma RemoveStarts(t: Tree, n: string)
    requires Forest(t) && n in t.nodes
    ensures Prune(t, Cover(t, t.children[n][..0])) == t
  {
    assert Cover(t, t.children[n][..0]) == {};
    PruneNothing(t);
  }

  lemma RemoveContinues(t: Tree, n: string, i: nat)
    requires Forest(t) && n in t.nodes && i < |t.children[n]|
    ensures var kids := t.children[n];
            var done := Prune(t, Cover(t, kids[..i]));
            && Forest(done)
            && Subtree(done, kids[i]) < Subtree(t, n)
            && Prune(done, Subtree(done, kids[i])) == Prune(t, Cover(t, kids[..i + 1]))
  {
    var kids := t.children[n];
    SubtreeUnfolds(t, n);
    CoverExtends(t, n, i);
    CoverDownClosed(t, kids[..i]);
    PruneShrinksSubtree(t, Cover(t, kids[..i]), kids[i]);
    assert Subtree(t, kids[i]) - Cover(t, kids[..i]) == Subtree(t, kids[i]);
    assert n in Subtree(t, n) && n !in Subtree(t, kids[i]);
    PruneTwice(t, Cover(t, kids[..i]), Subtree(t, kids[i]));
  }

  lemma RemoveEnds(t: Tree, n: string)
    requires Forest(t) && n in t.nodes
    ensures var kids := t.children[n];
            && n in Prune(t, Cover(t, kids[..|kids|])).children
            && Detach(Prune(t, Cover(t, kids[..|kids|])), n) == Prune(t, Subtree(t, n))
  {
    var kids := t.children[n];
    assert kids[..|kids|] == kids;
    SubtreeUnfolds(t, n);
    CoverDownClosed(t, kids);
    PruneKeepsForest(t, Cover(t, kids));
    DetachIsPrune(Prune(t, Cover(t, kids)), n);
    PruneTwice(t, Cover(t, kids), {n});
    assert Cover(t, kids) + {n} == Subtree(t, n);
  }

  lemma StripMore(t: Tree, A: set<string>, B: set<string>, c: string)
    requires A !! B
    ensures Strip(Strip(t, A, c), B, c) == Strip(t, A + B, c)
    ensures Holders(Strip(t, A, c), B, c) == Holders(t, B, c)
    ensures |Holders(t, A + B, c)| == |Holders(t, A, c)| + |Holders(t, B, c)|
  {
    assert Holders(t, A + B, c) == Holders(t, A, c) + Holders(t, B, c);
    assert Strip(Strip(t, A, c), B, c).nodes == Strip(t, A + B, c).nodes;
  }
}
