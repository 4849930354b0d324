/** What whole runs of tree operations keep, whatever their order. */
module CapabilityRuns {
  import opened CapabilityForest
  import opened Lists

  datatype Step =
    | InitRoot(all: set<string>)
    | Delegate(parent: string, child: string, caps: set<string>)
    | Revoke(node: string, cap: string)
    | RemoveSubtree(node: string)

  /** The step is no accepted delegation from a node called "". */
  predicate Anchored(t: Tree, step: Step) {
    step.Delegate? && DelegationAllowed(t, step.parent, step.child, step.caps) ==> step.parent != NO_PARENT
  }

  /** One locked call, as the methods of the tree specify it. */
  ghost function Apply(t: Tree, step: Step): (u: Tree)
    requires Good(t) && Anchored(t, step)
    ensures Good(u)
  {
    match step
    case InitRoot(all) =>
      InitialTreeIsGood(all);
      InitialTree(all)
    case Delegate(parent, child, caps) =>
      DelegatedKeepsForest(t, parent, child, caps);
      DelegatedKeepsRule(t, parent, child, caps);
      Delegated(t, parent, child, caps)
    case Revoke(node, cap) =>
      StripSubtreeKeepsRule(t, node, cap);
      Strip(t, Subtree(t, node), cap)
    case RemoveSubtree(node) =>
      SubtreeDownClosed(t, node);
      PruneKeepsForest(t, Subtree(t, node));
      Prune(t, Subtree(t, node))
  }

  ghost predicate AnchoredRun(t: Tree, steps: seq<Step>)
    requires Good(t)
    decreases |steps|
  {
    steps == [] || (Anchored(t, steps[0]) && AnchoredRun(Apply(t, steps[0]), steps[1..]))
  }

  /** The tree after a run: every reachable tree is a forest that obeys the subset rule. */
  ghost function Run(t: Tree, steps: seq<Step>): (u: Tree)
    requires Good(t) && AnchoredRun(t, steps)
    ensures Good(u)
    decreases |steps|
  {
    if steps == [] then t else Run(Apply(t, steps[0]), steps[1..])
  }

  /** It is enough that no step delegates from "". */
  lemma {:induction false} NeverFromEmptyIsAnchored(t: Tree, steps: seq<Step>)
    requires Good(t) && forall i | 0 <= i < |steps| && steps[i].Delegate? :: steps[i].parent != NO_PARENT
    ensures AnchoredRun(t, steps)
    decreases |steps|
  {
    if steps != [] {
      NeverFromEmptyIsAnchored(Apply(t, steps[0]), steps[1..]);
    }
  }

  ghost predicate WithoutInit(steps: seq<Step>) {
    forall i | 0 <= i < |steps| :: !steps[i].InitRoot?
  }

  /** `x` is there at the start of the run and after each of its steps. */
  ghost predicate StaysPresent(t: Tree, steps: seq<Step>, x: string)
    requires Good(t) && AnchoredRun(t, steps)
    decreases |steps|
  {
    x in t.nodes && (steps == [] || StaysPresent(Apply(t, steps[0]), steps[1..], x))
  }

  /** An accepted delegation gives the child what was asked for and touches no other node. */
  lemma DelegationGrantsExactly(t: Tree, parent: string, child: string, caps: set<string>, x: string)
    requires Good(t) && parent != NO_PARENT && parent in t.nodes && child !in t.nodes
    requires caps <= t.nodes[parent].capabilities
    ensures var u := Apply(t, Delegate(parent, child, caps));
            && child in u.nodes && u.nodes[child].capabilities == caps && u.nodes[child].parentId == parent
            && (x != child ==> (x in u.nodes <==> x in t.nodes) && (x in t.nodes ==> u.nodes[x] == t.nodes[x]))
  {
  }

  /** What a step takes from `x`: the revoked capability, if the step revokes it from `x` or above. */
  ghost function Taken(t: Tree, step: Step, x: string): set<string>
    requires Good(t) && x in t.nodes
  {
    if step.Revoke? && Below(t, step.node, x) then {step.cap} else {}
  }

  /** A step takes exactly that from a node it leaves in place, and leaves it where it is. */
  lemma StepTakesExactly(t: Tree, step: Step, x: string)
    requires Good(t) && Anchored(t, step) && !step.InitRoot?
    requires x in t.nodes && x in Apply(t, step).nodes
    ensures Apply(t, step).nodes[x].capabilities == t.nodes[x].capabilities - Taken(t, step, x)
    ensures Apply(t, step).nodes[x].parentId == t.nodes[x].parentId
  {
    match step
    case Delegate(parent, child, caps) =>
    case Revoke(node, cap) =>
    case RemoveSubtree(node) =>
  }

  /** The ancestors of a node do not change while it is there. */
  lemma StepKeepsAncestors(t: Tree, step: Step, a: string, x: string)
    requires Good(t) && Anchored(t, step) && !step.InitRoot?
    requires x in t.nodes && x in Apply(t, step).nodes
    ensures Below(Apply(t, step), a, x) == Below(t, a, x)
  {
    var u := Apply(t, step);
    match step
    case Delegate(parent, child, caps) => BelowStable(u, t, a, x);
    case Revoke(node, cap) => StripKeepsSubtree(t, Subtree(t, node), cap, a); BelowStable(t, u, a, x);
    case RemoveSubtree(node) => BelowStable(t, u, a, x);
  }

  /** The capabilities the run revokes from `x` or from one of its ancestors. */
  ghost function RevokedAbove(t: Tree, steps: seq<Step>, x: string): set<string>
    requires Good(t) && x in t.nodes
  {
    set i | 0 <= i < |steps| && steps[i].Revoke? && Below(t, steps[i].node, x) :: steps[i].cap
  }

  lemma RevokedAboveUnfolds(t: Tree, steps: seq<Step>, x: string)
    requires Good(t) && steps != [] && Anchored(t, steps[0]) && !steps[0].InitRoot?
    requires x in t.nodes && x in Apply(t, steps[0]).nodes
    ensures RevokedAbove(t, steps, x) == Taken(t, steps[0], x) + RevokedAbove(Apply(t, steps[0]), steps[1..], x)
  {
    var u := Apply(t, steps[0]);
    var all, rest := RevokedAbove(t, steps, x), RevokedAbove(u, steps[1..], x);
    forall a ensures Below(u, a, x) == Below(t, a, x) {
      StepKeepsAncestors(t, steps[0], a, x);
    }
    forall c | c in all ensures c in Taken(t, steps[0], x) + rest {
      var i :| 0 <= i < |steps| && steps[i].Revoke? && Below(t, steps[i].node, x) && steps[i].cap == c;
      if i > 0 { assert steps[1..][i - 1] == steps[i]; }
    }
    forall c | c in rest ensures c in all {
      var tail := steps[1..];
      var i :| 0 <= i < |tail| && tail[i].Revoke? && Below(u, tail[i].node, x) && tail[i].cap == c;
      assert steps[i + 1] == tail[i];
    }
  }

  /** A node that stays present holds what it held, less exactly what was revoked from it or above it. */
  lemma {:induction false} ExactAuthority(t: Tree, steps: seq<Step>, x: string)
    requires Good(t) && AnchoredRun(t, steps) && WithoutInit(steps) && StaysPresent(t, steps, x)
    ensures x in Run(t, steps).nodes
    ensures Run(t, steps).nodes[x].capabilities == t.nodes[x].capabilities - RevokedAbove(t, steps, x)
    ensures Run(t, steps).nodes[x].parentId == t.nodes[x].parentId
    decreases |steps|
  {
    if steps != [] {
      StepTakesExactly(t, steps[0], x);
      RevokedAboveUnfolds(t, steps, x);
      ExactAuthority(Apply(t, steps[0]), steps[1..], x);
    }
  }

  /** The root holds all it was initialised with, less exactly what was revoked from it. */
  lemma RootAuthority(all: set<string>, steps: seq<Step>)
    requires Good(InitialTree(all)) && AnchoredRun(InitialTree(all), steps) && WithoutInit(steps)
    requires StaysPresent(InitialTree(all), steps, "daemon")
    ensures "daemon" in Run(InitialTree(all), steps).nodes
    ensures forall c :: c in Run(InitialTree(all), steps).nodes["daemon"].capabilities
                        <==> c in all && Revoke("daemon", c) !in steps
  {
    var t := InitialTree(all);
    ExactAuthority(t, steps, ROOT);
    forall c ensures c in RevokedAbove(t, steps, ROOT) <==> Revoke(ROOT, c) in steps {
      if Revoke(ROOT, c) in steps {
        var i :| 0 <= i < |steps| && steps[i] == Revoke(ROOT, c);
      }
    }
  }

  /** After `revoke(a, c)` nobody below `a` holds `c` again for as long as `a` stays. */
  lemma RevocationIsPermanent(t: Tree, a: string, c: string, steps: seq<Step>, x: string)
    requires Good(t) && AnchoredRun(Apply(t, Revoke(a, c)), steps) && WithoutInit(steps)
    requires StaysPresent(Apply(t, Revoke(a, c)), steps, a)
    requires var u := Run(Apply(t, Revoke(a, c)), steps); x in u.nodes && Below(u, a, x)
    ensures c !in Run(Apply(t, Revoke(a, c)), steps).nodes[x].capabilities
  {
    var r := Apply(t, Revoke(a, c));
    assert c !in r.nodes[a].capabilities by {
      assert a in Subtree(t, a);
    }
    ExactAuthority(r, steps, a);
    HeldByAncestors(Run(r, steps), a, x);
  }

  ghost predicate NobodyHolds(t: Tree, c: string) {
    forall x | x in t.nodes :: c !in t.nodes[x].capabilities
  }

  /** A step passes capabilities on; it never makes one up. */
  lemma StepKeepsNobody(t: Tree, step: Step, c: string)
    requires Good(t) && Anchored(t, step) && !step.InitRoot? && NobodyHolds(t, c)
    ensures NobodyHolds(Apply(t, step), c)
  {
  }

  lemma {:induction false} NobodyForever(t: Tree, steps: seq<Step>, c: string)
    requires Good(t) && AnchoredRun(t, steps) && WithoutInit(steps) && NobodyHolds(t, c)
    ensures NobodyHolds(Run(t, steps), c)
    decreases |steps|
  {
    if steps != [] {
      StepKeepsNobody(t, steps[0], c);
      NobodyForever(Apply(t, steps[0]), steps[1..], c);
    }
  }

  /** Once revoked from the root, a capability is gone until the tree is initialised again. */
  lemma RootRevocationIsFinal(t: Tree, c: string, steps: seq<Step>)
    requires Good(t) && AnchoredRun(Apply(t, Revoke(ROOT, c)), steps) && WithoutInit(steps)
    ensures NobodyHolds(Run(Apply(t, Revoke(ROOT, c)), steps), c)
  {
    var r := Apply(t, Revoke(ROOT, c));
    forall x | x in t.nodes ensures x in Subtree(t, ROOT) {
      EverythingBelowRoot(t, x);
    }
    NobodyForever(r, steps, c);
  }

  /** No run after initialisation lets a node hold anything outside the initial set. */
  lemma AuthorityComesFromRoot(all: set<string>, steps: seq<Step>, x: string)
    requires Good(InitialTree(all)) && AnchoredRun(InitialTree(all), steps) && WithoutInit(steps)
    requires x in Run(InitialTree(all), steps).nodes
    ensures Run(InitialTree(all), steps).nodes[x].capabilities <= all
  {
    forall c | c !in all ensures c !in Run(InitialTree(all), steps).nodes[x].capabilities {
      NobodyForever(InitialTree(all), steps, c);
    }
  }

  /** Removing a subtree just delegated undoes the delegation, sibling order included. */
  lemma RemoveUndoesDelegate(t: Tree, parent: string, child: string, caps: set<string>)
    requires Good(t) && parent != NO_PARENT && DelegationAllowed(t, parent, child, caps)
    ensures Apply(Apply(t, Delegate(parent, child, caps)), RemoveSubtree(child)) == t
  {
    var u := Apply(t, Delegate(parent, child, caps));
    SubtreeUnfolds(u, child);
    assert Subtree(u, child) == {child};
    PruneUndoesDelegated(t, parent, child, caps);
  }

  lemma PruneUndoesDelegated(t: Tree, parent: string, child: string, caps: set<string>)
    requires Forest(t) && DelegationAllowed(t, parent, child, caps)
    ensures Prune(Delegated(t, parent, child, caps), {child}) == t
  {
    var r := Prune(Delegated(t, parent, child, caps), {child});
    NodesUndone(t, parent, child, caps);
    DelegatedKeys(t, parent, child, caps);
    assert r.children.Keys == t.children.Keys;
    forall p | p in t.children.Keys ensures r.children[p] == t.children[p] {
      ListUndone(t, parent, child, caps, p);
    }
    assert r.children == t.children;
  }

  lemma NodesUndone(t: Tree, parent: string, child: string, caps: set<string>)
    requires Forest(t) && DelegationAllowed(t, parent, child, caps)
    ensures Prune(Delegated(t, parent, child, caps), {child}).nodes == t.nodes
  {
    DelegatedKeys(t, parent, child, caps);
  }

  lemma ListUndone(t: Tree, parent: string, child: string, caps: set<string>, p: string)
    requires Forest(t) && DelegationAllowed(t, parent, child, caps) && p in t.children
    ensures Keep(Delegated(t, parent, child, caps).children[p], {child}) == t.children[p]
  {
    assert ListLinked(t, p);
    KeepExtremes(t.children[p], {child});
    if p == parent {
      KeepGrows(t.children[p], child, {child});
    }
  }
}
