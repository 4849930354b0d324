/** Merging capability names into one kernel mask. Nothing here depends on which bits a name stands for. */
module CapabilityMasks {
  import opened PolicyModel

  /** Capability names and the Linux capability bits they stand for. */
  type CapMap = map<string, bv64>

  /** An unknown name stands for no capability. */
  function Mask(table: CapMap, name: string): bv64 {
    if name in table then table[name] else 0
  }

  function Or(a: bv64, b: bv64): bv64 {
    a | b
  }

  function Merged(table: CapMap, names: seq<string>): bv64 {
    if names == [] then 0 else Or(Merged(table, names[..|names| - 1]), Mask(table, names[|names| - 1]))
  }

  method CapsToLinux(table: CapMap, names: seq<string>) returns (result: bv64)
    ensures forall one :: Has(result, one) <==> exists i :: Asks(table, names, i, one)
    ensures result == Merged(table, names)
  {
    result := 0;
    for i := 0 to |names|
      invariant result == Merged(table, names[..i])
    {
      assert names[..i + 1][..i] == names[..i];
      result := Or(result, Mask(table, names[i]));
    }
    assert names[..|names|] == names;
    forall one ensures Has(result, one) <==> exists i :: Asks(table, names, i, one) {
      MergedBits(table, names, one);
    }
  }

  lemma PartsWithin(a: bv64, b: bv64, m: bv64)
    requires a & m == a && b & m == b
    ensures (a | b) & m == a | b
  {
  }

  lemma WholeWithin(a: bv64, b: bv64, m: bv64)
    requires (a | b) & m == a | b
    ensures a & m == a && b & m == b
  {
  }

  lemma OrCovered(m: bv64, a: bv64, b: bv64)
    ensures Covers(m, Or(a, b)) <==> Covers(m, a) && Covers(m, b)
  {
    if Covers(m, a) && Covers(m, b) { PartsWithin(a, b, m); }
    if Covers(m, Or(a, b)) { WholeWithin(a, b, m); }
  }

  lemma NothingCovered(m: bv64)
    ensures Covers(m, 0)
  {
  }

  lemma CoversEachOther(a: bv64, b: bv64)
    ensures Covers(a, b) && Covers(b, a) <==> a == b
  {
  }

  lemma OrBitLeft(a: bv64, b: bv64, one: bv64)
    requires Has(a, one)
    ensures Has(Or(a, b), one)
  {
  }

  lemma OrBitRight(a: bv64, b: bv64, one: bv64)
    requires Has(b, one)
    ensures Has(Or(a, b), one)
  {
  }

  lemma OrBitDown(a: bv64, b: bv64, one: bv64)
    requires Has(Or(a, b), one)
    ensures Has(a, one) || Has(b, one)
  {
  }

  lemma OrBit(a: bv64, b: bv64, one: bv64)
    ensures Has(Or(a, b), one) <==> Has(a, one) || Has(b, one)
  {
    if Has(a, one) { OrBitLeft(a, b, one); }
    if Has(b, one) { OrBitRight(a, b, one); }
    if Has(Or(a, b), one) { OrBitDown(a, b, one); }
  }

  lemma ZeroHasNoBit(one: bv64)
    ensures !Has(0, one)
  {
  }

  /** The name at `i` is known and stands for bit `one`, among others. */
  ghost predicate Asks(table: CapMap, names: seq<string>, i: int, one: bv64) {
    0 <= i < |names| && names[i] in table && Has(table[names[i]], one)
  }

  /** A bit is in the merged mask exactly when one of the names is known to stand for it. */
  lemma {:induction false} MergedBits(table: CapMap, names: seq<string>, one: bv64)
    ensures Has(Merged(table, names), one) <==> exists i :: Asks(table, names, i, one)
    decreases |names|
  {
    ZeroHasNoBit(one);
    if names != [] {
      var front, last := names[..|names| - 1], names[|names| - 1];
      MergedBits(table, front, one);
      var m, n := Merged(table, front), Mask(table, last);
      OrBit(m, n, one);
      if Has(n, one) { assert Asks(table, names, |names| - 1, one); }
      if Has(m, one) {
        var i :| Asks(table, front, i, one);
        assert Asks(table, names, i, one);
      }
      forall i | Asks(table, names, i, one) ensures Has(m, one) || Has(n, one) {
        if i < |front| { assert Asks(table, front, i, one); }
      }
    }
  }

  /** A mask covers a merged mask exactly when it covers each of its parts. */
  lemma {:induction false} MergedCovered(table: CapMap, names: seq<string>, m: bv64)
    ensures Covers(m, Merged(table, names)) <==> forall i | 0 <= i < |names| :: Covers(m, Mask(table, names[i]))
    decreases |names|
  {
    if names == [] {
      NothingCovered(m);
    } else {
      var front, last := names[..|names| - 1], names[|names| - 1];
      MergedCovered(table, front, m);
      OrCovered(m, Merged(table, front), Mask(table, last));
      assert names == front + [last];
    }
  }

  lemma MergedCoversFewer(table: CapMap, a: seq<string>, b: seq<string>)
    requires forall i | 0 <= i < |a| :: a[i] in b
    ensures Covers(Merged(table, b), Merged(table, a))
  {
    var m := Merged(table, b);
    CoversEachOther(m, m);
    MergedCovered(table, b, m);
    MergedCovered(table, a, m);
    forall i | 0 <= i < |a| ensures Covers(m, Mask(table, a[i])) {
      var j :| 0 <= j < |b| && b[j] == a[i];
    }
  }

  /** Order and repetition of the names do not matter. */
  lemma MergedDependsOnSet(table: CapMap, a: seq<string>, b: seq<string>)
    requires (forall i | 0 <= i < |a| :: a[i] in b) && (forall i | 0 <= i < |b| :: b[i] in a)
    ensures Merged(table, a) == Merged(table, b)
  {
    MergedCoversFewer(table, a, b);
    MergedCoversFewer(table, b, a);
    CoversEachOther(Merged(table, a), Merged(table, b));
  }

  /** The kernel grants a merged request exactly when it would grant every name on its own. */
  lemma MergedRequestIsCompositional(table: CapMap, t: Table, uid: nat, names: seq<string>)
    requires uid in Rules(t) || names != []
    ensures Decision(true, Rules(t), uid, Merged(table, names), false) == 0
            <==> forall i | 0 <= i < |names| :: Decision(true, Rules(t), uid, Mask(table, names[i]), false) == 0
  {
    if uid in Rules(t) {
      MergedCovered(table, names, Rules(t)[uid].allowedCaps);
    } else {
      assert Decision(true, Rules(t), uid, Mask(table, names[0]), false) == -EPERM;
    }
  }
}

/** The daemon's own table. */
module CapabilityNames {
  import opened CapabilityMasks

  const ALL_CAPS: bv64 := 0x1FF_FFFF_FFFF

  /** Capability names and the Linux capability bits they stand for. */
  const CAP_MAP: CapMap := map[
    "su.shell" := ALL_CAPS,
    "su.full" := ALL_CAPS,
    "mount.bind" := 0x20_0000,
    "mount.tmpfs" := 0x20_0000,
    "mount.overlay" := 0x20_0000,
    "filesystem.chown" := 0x19,
    "filesystem.dac" := 0x6,
    "network.raw" := 0x2000,
    "network.admin" := 0x1000,
    "network.bind" := 0x400,
    "module.load" := 0x1_0000,
    "system.reboot" := 0x40_0000,
    "system.time" := 0x200_0000,
    "system.nice" := 0x80_0000,
    "system.chroot" := 0x4_0000,
    "system.ptrace" := 0x8_0000,
    "system.resource" := 0x100_0000,
    "property.set" := 0,
    "property.read" := 0,
    "audit.write" := 0x2000_0000,
    "audit.control" := 0x20_4000_0000,
    "security.mac" := 0x3_0000_0000,
    "security.selinux" := 0x2_0000_0000]

  method AstraCapsToLinux(names: seq<string>) returns (result: bv64)
    ensures result == Merged(CAP_MAP, names)
  {
    result := CapsToLinux(CAP_MAP, names);
  }
}
