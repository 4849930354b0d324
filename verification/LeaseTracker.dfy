/** The daemon's leases. Sweeping marks expired leases as revoked, and nobody can tell. */
module LeaseModel {

  /** The expiry of a lease that never expires: the largest 64-bit integer. */
  const NEVER := 0x7FFF_FFFF_FFFF_FFFF

  datatype Lease = Lease(leaseId: string, moduleId: string, capability: string, expiresAt: int, revoked: bool)

  type Leases = map<string, Lease>

  predicate Expired(e: Lease, now: int) {
    e.expiresAt != NEVER && now >= e.expiresAt
  }

  predicate Live(e: Lease, now: int) {
    !e.revoked && (e.expiresAt == NEVER || now < e.expiresAt)
  }

  ghost predicate HasLive(s: Leases, moduleId: string, capability: string, now: int) {
    exists id | id in s :: s[id].moduleId == moduleId && s[id].capability == capability && Live(s[id], now)
  }

  ghost function LiveIds(s: Leases, now: int): set<string> {
    set id | id in s && Live(s[id], now)
  }

  function Swept(s: Leases, now: int): Leases {
    map id | id in s :: if !s[id].revoked && Expired(s[id], now) then s[id].(revoked := true) else s[id]
  }

  lemma LiveIsAnswer(s: Leases, id: string, m: string, c: string, now: int)
    requires id in s && s[id].moduleId == m && s[id].capability == c && Live(s[id], now)
    ensures HasLive(s, m, c, now)
  {
  }

  // ---- runs ----

  datatype Op =
    | Upsert(lease: Lease)
    | Remove(leaseId: string)
    | HasActive(moduleId: string, capability: string, askedAt: int)
    | CountActive(countedAt: int)
    | Sweep(sweptAt: int)

  datatype Answer = Active(yes: bool) | Count(n: nat)

  function Apply(s: Leases, op: Op): Leases {
    match op
    case Upsert(e) => s[e.leaseId := e]
    case Remove(id) => s - {id}
    case HasActive(_, _, _) => s
    case CountActive(_) => s
    case Sweep(now) => Swept(s, now)
  }

  /** After an upsert a query is answered by the new lease or by one of the others. */
  lemma AnswerAfterUpsert(s: Leases, e: Lease, m: string, c: string, now: int)
    ensures HasLive(Apply(s, Upsert(e)), m, c, now) <==>
            || (e.moduleId == m && e.capability == c && !e.revoked && (e.expiresAt == NEVER || now < e.expiresAt))
            || (exists id | id in s && id != e.leaseId ::
                  s[id].moduleId == m && s[id].capability == c && Live(s[id], now))
  {
    var u := Apply(s, Upsert(e));
    if id :| id in s && id != e.leaseId && s[id].moduleId == m && s[id].capability == c && Live(s[id], now) {
      LiveIsAnswer(u, id, m, c, now);
    }
    if e.moduleId == m && e.capability == c && Live(e, now) {
      LiveIsAnswer(u, e.leaseId, m, c, now);
    }
  }

  /** After a removal only the other leases answer. */
  lemma AnswerAfterRemove(s: Leases, gone: string, m: string, c: string, now: int)
    ensures HasLive(Apply(s, Remove(gone)), m, c, now) <==>
            exists id | id in s && id != gone :: s[id].moduleId == m && s[id].capability == c && Live(s[id], now)
  {
    if id :| id in s && id != gone && s[id].moduleId == m && s[id].capability == c && Live(s[id], now) {
      LiveIsAnswer(Apply(s, Remove(gone)), id, m, c, now);
    }
  }

  /** What the callers of the two queries see over a run. */
  ghost function Answers(s: Leases, ops: seq<Op>): seq<Answer>
    decreases |ops|
  {
    if ops == [] then [] else
      (match ops[0]
       case HasActive(m, c, now) => [Active(HasLive(s, m, c, now))]
       case CountActive(now) => [Count(|LiveIds(s, now)|)]
       case _ => [])
      + Answers(Apply(s, ops[0]), ops[1..])
  }

  function WithoutSweeps(ops: seq<Op>): seq<Op> {
    if ops == [] then []
    else if ops[0].Sweep? then WithoutSweeps(ops[1..])
    else [ops[0]] + WithoutSweeps(ops[1..])
  }

  /** The clock reading an operation makes, if any. */
  function Reading(op: Op, last: int): int {
    match op
    case HasActive(_, _, now) => now
    case CountActive(now) => now
    case Sweep(now) => now
    case _ => last
  }

  /** The clock does not go back during the run, nor before `last`. */
  ghost predicate Clocked(ops: seq<Op>, last: int)
    decreases |ops|
  {
    ops == [] || (last <= Reading(ops[0], last) && Clocked(ops[1..], Reading(ops[0], last)))
  }

  /** `s` is `u` except that some leases already expired in `u` are marked revoked. */
  ghost predicate Simulates(s: Leases, u: Leases, now: int) {
    && s.Keys == u.Keys
    && forall id | id in u :: s[id] == u[id] || (Expired(u[id], now) && s[id] == u[id].(revoked := true))
  }

  lemma SimulationAnswersAlike(s: Leases, u: Leases, now: int, later: int)
    requires Simulates(s, u, now) && now <= later
    ensures LiveIds(s, later) == LiveIds(u, later)
    ensures forall m, c :: HasLive(s, m, c, later) == HasLive(u, m, c, later)
  {
  }

  lemma SimulationSurvives(s: Leases, u: Leases, now: int, op: Op)
    requires Simulates(s, u, now) && now <= Reading(op, now)
    ensures Simulates(Apply(s, op), if op.Sweep? then u else Apply(u, op), Reading(op, now))
  {
  }

  lemma {:induction false} SweepsUnobservableFrom(s: Leases, u: Leases, ops: seq<Op>, now: int)
    requires Simulates(s, u, now) && Clocked(ops, now)
    ensures Answers(s, ops) == Answers(u, WithoutSweeps(ops))
    decreases |ops|
  {
    if ops != [] {
      var op, rest := ops[0], WithoutSweeps(ops[1..]);
      var u' := if op.Sweep? then u else Apply(u, op);
      SimulationSurvives(s, u, now, op);
      SweepsUnobservableFrom(Apply(s, op), u', ops[1..], Reading(op, now));
      SimulationAnswersAlike(s, u, now, Reading(op, now));
      if !op.Sweep? {
        assert WithoutSweeps(ops)[1..] == rest;
      }
    }
  }

  /** Two runs that differ only in their sweeps, under a clock that does not go back, get the same answers. */
  lemma SweepsUnobservable(s: Leases, ops: seq<Op>, ops': seq<Op>, start: int, start': int)
    requires Clocked(ops, start) && Clocked(ops', start') && WithoutSweeps(ops) == WithoutSweeps(ops')
    ensures Answers(s, ops) == Answers(s, ops')
  {
    SweepsUnobservableFrom(s, s, ops, start);
    SweepsUnobservableFrom(s, s, ops', start');
  }

  /** The sweep marks this lease although it is live at the later reading. */
  predicate Hidden(e: Lease, sweptAt: int, now: int) {
    Live(e, now) && Expired(e, sweptAt)
  }

  /** A sweep shows exactly when a later reading is before the expiry of a lease the sweep marked. */
  lemma SweepShowsIff(s: Leases, sweptAt: int, now: int)
    ensures |LiveIds(Swept(s, sweptAt), now)| != |LiveIds(s, now)|
            <==> exists id | id in s :: Hidden(s[id], sweptAt, now)
  {
    var before, after := LiveIds(s, now), LiveIds(Swept(s, sweptAt), now);
    forall id | id in s ensures id in after <==> id in before && !Hidden(s[id], sweptAt, now) {
    }
    assert after <= before;
    if id :| id in s && Hidden(s[id], sweptAt, now) {
      assert id in before && id !in after;
      SubsetIsSmaller(after, before, id);
    } else {
      assert before == after;
    }
  }

  lemma SubsetIsSmaller(a: set<string>, b: set<string>, x: string)
    requires a <= b && x in b && x !in a
    ensures |a| < |b|
  {
    assert |b - a| + |a| == |b|;
    assert x in b - a;
  }
}

/** The tracker the daemon keeps. Each method runs under its lock with one clock reading. */
module LeaseTrackers {
  import opened LeaseModel

  class LeaseTracker {
    var leases: Leases

    constructor ()
      ensures leases == map[]
    {
      leases := map[];
    }

    method UpsertLease(e: Lease)
      modifies this
      ensures leases == old(leases)[e.leaseId := e]
      ensures leases == Apply(old(leases), Upsert(e))
    {
      leases := leases[e.leaseId := e];
    }

    method RemoveLease(leaseId: string)
      modifies this
      ensures leases == old(leases) - {leaseId}
      ensures leases == Apply(old(leases), Remove(leaseId))
    {
      leases := leases - {leaseId};
    }

    method HasActiveLease(moduleId: string, capability: string, now: int) returns (active: bool)
      ensures active <==> exists id | id in leases ::
                && leases[id].moduleId == moduleId && leases[id].capability == capability && !leases[id].revoked
                && (leases[id].expiresAt == 9223372036854775807 || now < leases[id].expiresAt)
      ensures active == HasLive(leases, moduleId, capability, now)
    {
      var ids := leases.Keys;
      while ids != {}
        invariant ids <= leases.Keys
        invariant forall id | id in leases.Keys - ids ::
                    !(leases[id].moduleId == moduleId && leases[id].capability == capability && Live(leases[id], now))
      {
        var id :| id in ids;
        var e := leases[id];
        if e.moduleId == moduleId && e.capability == capability && !e.revoked
           && (e.expiresAt == NEVER || now < e.expiresAt) {
          return true;
        }
        ids := ids - {id};
      }
      return false;
    }

    method ActiveCount(now: int) returns (count: nat)
      ensures count == |set id | id in leases && !leases[id].revoked
                                 && (leases[id].expiresAt == 9223372036854775807 || now < leases[id].expiresAt)|
      ensures count == |LiveIds(leases, now)|
    {
      count := 0;
      var ids := leases.Keys;
      ghost var counted: set<string> := {};
      while ids != {}
        invariant ids <= leases.Keys
        invariant counted == set id | id in leases.Keys - ids && Live(leases[id], now)
        invariant count == |counted|
      {
        var id :| id in ids;
        if !leases[id].revoked && (leases[id].expiresAt == NEVER || now < leases[id].expiresAt) {
          count := count + 1;
          counted := counted + {id};
        }
        ids := ids - {id};
      }
      assert counted == LiveIds(leases, now);
      assert counted == set id | id in leases && !leases[id].revoked
                                 && (leases[id].expiresAt == 9223372036854775807 || now < leases[id].expiresAt);
    }

    method SweepLeases(now: int)
      modifies this
      ensures leases.Keys == old(leases.Keys)
      ensures forall id | id in leases ::
                var e := old(leases)[id];
                leases[id] == e.(revoked := e.revoked || (e.expiresAt != 9223372036854775807 && now >= e.expiresAt))
      ensures leases == Apply(old(leases), Sweep(now))
    {
      var ids := leases.Keys;
      while ids != {}
        invariant leases.Keys == old(leases).Keys && ids <= leases.Keys
        invariant forall id | id in leases ::
                    leases[id] == if id in ids then old(leases)[id] else Swept(old(leases), now)[id]
      {
        var id :| id in ids;
        var e := leases[id];
        if !e.revoked && e.expiresAt != NEVER && now >= e.expiresAt {
          leases := leases[id := e.(revoked := true)];
        }
        ids := ids - {id};
      }
      assert leases == Swept(old(leases), now);
    }
  }
}
