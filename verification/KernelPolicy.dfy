/** The kernel module's policy table, and the capability masks the daemon asks it about. */
module PolicyModel {

  const MAX_POLICIES := 128
  const EPERM := 1
  const EFAULT := 14
  const ENOSPC := 28

  datatype Policy = Policy(uid: nat, allowedCaps: bv64, allowFullRoot: nat)

  /** The entries in the order they were set. */
  type Table = t: seq<Policy> | |t| <= MAX_POLICIES

  /** What a uid may do: its first entry decides, later ones never count. */
  function Rules(t: seq<Policy>): map<nat, Policy> {
    if t == [] then map[] else
      var m := Rules(t[..|t| - 1]);
      var last := t[|t| - 1];
      if last.uid in m then m else m[last.uid := last]
  }

  /** Every requested bit is allowed. */
  predicate Covers(allowed: bv64, requested: bv64) {
    requested & allowed == requested
  }

  predicate Grants(p: Policy, caps: bv64, fullRoot: bool) {
    if fullRoot then p.allowFullRoot != 0 else Covers(p.allowedCaps, caps)
  }

  /** The answer to a request under the rules: 0, or refusal; without enforcement everything is allowed. */
  function Decision(enforce: bool, rules: map<nat, Policy>, uid: nat, caps: bv64, fullRoot: bool): int {
    if !enforce || (uid in rules && Grants(rules[uid], caps, fullRoot)) then 0 else -EPERM
  }

  /** A call of SET_POLICY: who calls, and the entry, if it could be copied from the caller. */
  datatype SetPolicy = SetPolicy(byRoot: bool, copied: bool, entry: Policy)

  function SetResult(t: Table, op: SetPolicy): int {
    if !op.byRoot then -EPERM
    else if !op.copied then -EFAULT
    else if |t| < MAX_POLICIES then 0
    else -ENOSPC
  }

  function Set(t: Table, op: SetPolicy): Table {
    if SetResult(t, op) == 0 then t + [op.entry] else t
  }

  function Run(t: Table, ops: seq<SetPolicy>): Table
    decreases |ops|
  {
    if ops == [] then t else Run(Set(t, ops[0]), ops[1..])
  }

  // ---- masks, bit by bit ----

  /** A mask of one bit. */
  predicate IsBit(one: bv64) {
    one != 0 && one & (one - 1) == 0
  }

  predicate Has(mask: bv64, one: bv64) {
    mask & one != 0
  }

  function Missing(allowed: bv64, requested: bv64): bv64 {
    requested & !allowed
  }

  function Lowest(d: bv64): bv64 {
    d & (0 - d)
  }

  lemma LowestIsBit(d: bv64)
    requires d != 0
    ensures IsBit(Lowest(d)) && Has(d, Lowest(d))
  {
  }

  lemma CoveredBit(allowed: bv64, requested: bv64, one: bv64)
    requires Covers(allowed, requested) && IsBit(one) && Has(requested, one)
    ensures Has(allowed, one)
  {
  }

  lemma SomethingMissing(allowed: bv64, requested: bv64)
    requires !Covers(allowed, requested)
    ensures Missing(allowed, requested) != 0
  {
  }

  lemma MissingBit(allowed: bv64, requested: bv64, one: bv64)
    requires IsBit(one) && Has(Missing(allowed, requested), one)
    ensures Has(requested, one) && !Has(allowed, one)
  {
  }

  /** The masked comparison of the check says that every requested bit is allowed. */
  lemma CoversBitwise(allowed: bv64, requested: bv64)
    ensures Covers(allowed, requested) <==> forall one :: IsBit(one) && Has(requested, one) ==> Has(allowed, one)
  {
    if Covers(allowed, requested) {
      forall one | IsBit(one) && Has(requested, one) ensures Has(allowed, one) {
        CoveredBit(allowed, requested, one);
      }
    } else {
      SomethingMissing(allowed, requested);
      var d := Missing(allowed, requested);
      LowestIsBit(d);
      MissingBit(allowed, requested, Lowest(d));
    }
  }

  // ---- the table over runs ----

  lemma RulesGrow(t: seq<Policy>, p: Policy)
    ensures Rules(t + [p]) == if p.uid in Rules(t) then Rules(t) else Rules(t)[p.uid := p]
  {
    assert (t + [p])[..|t|] == t;
  }

  /** The rules hold the uids of the table and no others, each with the entry that came first. */
  lemma {:induction false} FirstEntryWins(t: seq<Policy>, uid: nat) returns (i: nat)
    ensures uid !in Rules(t) <==> i == |t|
    ensures forall j | 0 <= j < i && j < |t| :: t[j].uid != uid
    ensures uid in Rules(t) ==> i < |t| && t[i].uid == uid && Rules(t)[uid] == t[i]
    decreases |t|
  {
    i := 0;
    if t != [] {
      var front := t[..|t| - 1];
      i := FirstEntryWins(front, uid);
      assert forall j | 0 <= j < |front| :: t[j] == front[j];
      if i == |front| && t[i].uid != uid {
        i := |t|;
      }
    }
  }

  /** Entry `i` is the first one for `uid`. */
  ghost predicate FirstFor(t: seq<Policy>, uid: nat, i: int) {
    0 <= i < |t| && t[i].uid == uid && forall j | 0 <= j < i :: t[j].uid != uid
  }

  /** The decision, in terms of the entries, their flags and their bits. */
  lemma DecisionMeans(enforce: bool, t: seq<Policy>, uid: nat, caps: bv64, fullRoot: bool)
    ensures Decision(enforce, Rules(t), uid, caps, fullRoot) == 0 <==>
            || !enforce
            || (exists i :: FirstFor(t, uid, i) &&
                  if fullRoot then t[i].allowFullRoot != 0
                  else forall one :: IsBit(one) && Has(caps, one) ==> Has(t[i].allowedCaps, one))
  {
    var first := FirstEntryWins(t, uid);
    assert forall i | FirstFor(t, uid, i) :: i == first;
    if uid in Rules(t) {
      assert FirstFor(t, uid, first);
      CoversBitwise(t[first].allowedCaps, caps);
    }
  }

  /** The table is append-only and the first entry wins, so a uid's rule is there for good. */
  lemma {:induction false} RulesArePermanent(t: Table, ops: seq<SetPolicy>, uid: nat)
    requires uid in Rules(t)
    ensures uid in Rules(Run(t, ops)) && Rules(Run(t, ops))[uid] == Rules(t)[uid]
    decreases |ops|
  {
    if ops != [] {
      RulesGrow(t, ops[0].entry);
      RulesArePermanent(Set(t, ops[0]), ops[1..], uid);
    }
  }

  /** Once a uid has an entry, no later run changes any answer it gets. */
  lemma AnswersArePermanent(enforce: bool, t: Table, ops: seq<SetPolicy>, uid: nat, caps: bv64, fullRoot: bool)
    requires uid in Rules(t)
    ensures Decision(enforce, Rules(Run(t, ops)), uid, caps, fullRoot)
            == Decision(enforce, Rules(t), uid, caps, fullRoot)
  {
    RulesArePermanent(t, ops, uid);
  }

  /** With enforcement, a uid that no root call got into the table is refused whatever it asks. */
  lemma {:induction false} UnlistedIsRefused(t: Table, ops: seq<SetPolicy>, uid: nat, caps: bv64, fullRoot: bool)
    requires uid !in Rules(t) && forall i | 0 <= i < |ops| && ops[i].byRoot && ops[i].copied :: ops[i].entry.uid != uid
    ensures Decision(true, Rules(Run(t, ops)), uid, caps, fullRoot) == -EPERM
    decreases |ops|
  {
    if ops != [] {
      RulesGrow(t, ops[0].entry);
      UnlistedIsRefused(Set(t, ops[0]), ops[1..], uid, caps, fullRoot);
    }
  }

  /** A full table refuses every further entry and stays as it is. */
  lemma {:induction false} FullStaysFull(t: Table, ops: seq<SetPolicy>)
    requires |t| == MAX_POLICIES
    ensures Run(t, ops) == t
    ensures forall i | 0 <= i < |ops| && ops[i].byRoot && ops[i].copied ::
              SetResult(Run(t, ops[..i]), ops[i]) == -ENOSPC
    decreases |ops|
  {
    if ops != [] {
      FullStaysFull(t, ops[1..]);
      forall i | 0 <= i < |ops| ensures Run(t, ops[..i]) == t {
        if i > 0 {
          assert ops[..i][1..] == ops[1..][..i - 1];
          FullStaysFull(t, ops[..i][1..]);
        }
      }
    }
  }
}

module PolicyTables {
  import opened PolicyModel

  class PolicyTable {
    const enforce: bool
    const table: array<Policy>
    var count: nat

    ghost predicate Valid()
      reads this
    {
      table.Length == MAX_POLICIES && count <= MAX_POLICIES
    }

    ghost function Entries(): Table
      requires Valid()
      reads this, table
    {
      table[..count]
    }

    constructor (enforce: bool)
      ensures Valid() && fresh(table) && this.enforce == enforce && Entries() == []
    {
      this.enforce := enforce;
      count := 0;
      table := new Policy[MAX_POLICIES](_ => Policy(0, 0, 0));
    }

    /**
     The scan stops at the uid's first entry: full root needs that entry's flag, anything else that
     every requested bit is among its capabilities.
     */
    method Check(uid: nat, caps: bv64, fullRoot: bool) returns (ret: int)
      requires Valid()
      ensures ret == 0 || ret == -1
      ensures ret == 0 <==>
              || !enforce
              || (exists i :: FirstFor(table[..count], uid, i) &&
                    if fullRoot then table[i].allowFullRoot != 0
                    else forall one :: IsBit(one) && Has(caps, one) ==> Has(table[i].allowedCaps, one))
      ensures ret == Decision(enforce, Rules(Entries()), uid, caps, fullRoot)
    {
      DecisionMeans(enforce, table[..count], uid, caps, fullRoot);
      if !enforce { return 0; }
      ret := Scan(uid, caps, fullRoot);
    }

    method Scan(uid: nat, caps: bv64, fullRoot: bool) returns (ret: int)
      requires Valid()
      ensures ret == Decision(true, Rules(Entries()), uid, caps, fullRoot)
    {
      if count == 0 { return -EPERM; }
      var allowed := false;
      var i := 0;
      while i < count
        invariant 0 <= i <= count
        invariant uid !in Rules(table[..i]) && !allowed
      {
        assert table[..i + 1] == table[..i] + [table[i]];
        RulesGrow(table[..i], table[i]);
        if table[i].uid == uid {
          RulesOfPrefix(table[..count], i + 1, uid);
          assert table[..count][..i + 1] == table[..i + 1];
          if fullRoot {
            allowed := table[i].allowFullRoot != 0;
          } else {
            allowed := Covers(table[i].allowedCaps, caps);
          }
          return if allowed then 0 else -EPERM;
        }
        i := i + 1;
      }
      return -EPERM;
    }

    method SetEntry(op: SetPolicy) returns (ret: int)
      requires Valid()
      modifies this`count, table
      ensures Valid()
      ensures ret == if !op.byRoot then -1 else if !op.copied then -14 else if old(count) < 128 then 0 else -28
      ensures count == old(count) + (if ret == 0 then 1 else 0) && table[..old(count)] == old(table[..count])
      ensures ret == 0 ==> table[old(count)] == op.entry
      ensures ret == SetResult(old(Entries()), op)
      ensures Entries() == Set(old(Entries()), op)
    {
      if !op.byRoot { return -EPERM; }
      if !op.copied { return -EFAULT; }
      if count < MAX_POLICIES {
        table[count] := op.entry;
        count := count + 1;
      } else {
        return -ENOSPC;
      }
      return 0;
    }
  }

  lemma {:induction false} RulesOfPrefix(t: seq<Policy>, k: nat, uid: nat)
    requires k <= |t| && uid in Rules(t[..k])
    ensures uid in Rules(t) && Rules(t)[uid] == Rules(t[..k])[uid]
    decreases |t|
  {
    if k == |t| {
      assert t[..k] == t;
    } else {
      var front := t[..|t| - 1];
      assert front[..k] == t[..k];
      RulesOfPrefix(front, k, uid);
    }
  }
}
