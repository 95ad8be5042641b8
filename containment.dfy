/** The parent-prefix rule of the IPAddress save path: with AUTO_PREFIX_CREATE
    on, saving an address makes sure a Prefix for the address's network
    exists in the address's partition, creating it only when it is absent. */
module Containment {
  import opened Addressing
  import opened Uniqueness

  /** The Prefix an address implies: its network (host bits cleared, mask
      kept) in the address's own VRF. */
  function ParentOf(a: Record): (r: Record)
    ensures r.vrf == a.vrf && r.net.len == a.net.len
    ensures Contains(r.net, a.net)
  {
    NetworkOfIsContainingBlock(a.net, a.net);
    Record(NetworkOf(a.net), a.vrf)
  }

  /** The Prefix table after an address `a` is saved. With the flag off it is
      untouched. With it on, the parent Prefix is there afterwards, and it
      was appended only if no equal Prefix existed in that partition. */
  function Repair(prefixes: seq<Record>, a: Record, autoPrefixCreate: bool): (r: seq<Record>)
    ensures !autoPrefixCreate ==> r == prefixes
    ensures autoPrefixCreate ==> HasCollision(r, ParentOf(a))
    ensures r == prefixes || (r == prefixes + [ParentOf(a)] && !HasCollision(prefixes, ParentOf(a)))
  {
    if autoPrefixCreate && FindDuplicate(prefixes, ParentOf(a)).None? then
      var r := prefixes + [ParentOf(a)];
      assert Collides(r[|prefixes|], ParentOf(a));
      r
    else
      prefixes
  }

  /** Number of stored records whose network equals `net`, in any VRF
      (what `Prefix.objects.filter(prefix=...)` counts). */
  function CountNetwork(s: seq<Record>, net: Cidr): (n: nat)
    ensures n <= |s|
    ensures n == 0 <==> forall i :: 0 <= i < |s| ==> s[i].net != net
  {
    if s == [] then 0
    else
      var rest := CountNetwork(s[1..], net);
      assert forall i :: 1 <= i < |s| ==> s[i] == s[1..][i - 1];
      (if s[0].net == net then 1 else 0) + rest
  }

  /** Number of stored records that clash with `p` (same network, same VRF). */
  function CountClashes(s: seq<Record>, p: Record): nat {
    if s == [] then 0 else (if Collides(s[0], p) then 1 else 0) + CountClashes(s[1..], p)
  }

  lemma {:induction false} CountNetworkAppend(s: seq<Record>, x: Record, net: Cidr)
    ensures CountNetwork(s + [x], net) == CountNetwork(s, net) + (if x.net == net then 1 else 0)
  {
    if s != [] {
      assert (s + [x])[1..] == s[1..] + [x];
      CountNetworkAppend(s[1..], x, net);
    }
  }

  lemma {:induction false} CountClashesAppend(s: seq<Record>, x: Record, p: Record)
    ensures CountClashes(s + [x], p) == CountClashes(s, p) + (if Collides(x, p) then 1 else 0)
  {
    if s != [] {
      assert (s + [x])[1..] == s[1..] + [x];
      CountClashesAppend(s[1..], x, p);
    }
  }

  /** A record clashing with `p` is stored exactly when the clash count is
      positive. */
  lemma {:induction false} CountClashesPositiveIff(s: seq<Record>, p: Record)
    ensures CountClashes(s, p) > 0 <==> HasCollision(s, p)
  {
    if s != [] {
      CountClashesPositiveIff(s[1..], p);
      if HasCollision(s[1..], p) {
        var i :| 0 <= i < |s[1..]| && Collides(s[1..][i], p);
        assert Collides(s[i + 1], p);
      }
      if HasCollision(s, p) && !Collides(s[0], p) {
        var i :| 0 <= i < |s| && Collides(s[i], p);
        assert Collides(s[1..][i - 1], p);
      }
    }
  }

  /** No two stored Prefixes clash: each (network, VRF) appears at most once. */
  ghost predicate Distinct(s: seq<Record>) {
    forall i, j :: 0 <= i < j < |s| ==> !Collides(s[i], s[j])
  }

  /** In a table without clashes every (network, VRF) is counted at most once. */
  lemma {:induction false} DistinctCountsAtMostOne(s: seq<Record>, p: Record)
    requires Distinct(s)
    ensures CountClashes(s, p) <= 1
  {
    if s != [] {
      assert Distinct(s[1..]) by {
        forall i, j | 0 <= i < j < |s[1..]| ensures !Collides(s[1..][i], s[1..][j]) {
          assert s[1..][i] == s[i + 1] && s[1..][j] == s[j + 1];
        }
      }
      DistinctCountsAtMostOne(s[1..], p);
      if Collides(s[0], p) {
        assert !HasCollision(s[1..], p) by {
          forall i | 0 <= i < |s[1..]| ensures !Collides(s[1..][i], p) {
            assert !Collides(s[0], s[i + 1]);
          }
        }
        CountClashesPositiveIff(s[1..], p);
      }
    }
  }

  /** Saving an address keeps a clash-free Prefix table clash-free. */
  lemma {:induction false} RepairPreservesDistinct(prefixes: seq<Record>, a: Record, autoPrefixCreate: bool)
    requires Distinct(prefixes)
    ensures Distinct(Repair(prefixes, a, autoPrefixCreate))
  {
  }

  /** With AUTO_PREFIX_CREATE on, exactly one Prefix for the address's
      network exists in its partition afterwards, provided that partition
      held at most one before (as in any clash-free table, by
      `DistinctCountsAtMostOne`). Other partitions may hold duplicates. */
  lemma {:induction false} RepairLeavesExactlyOneParent(prefixes: seq<Record>, a: Record)
    requires CountClashes(prefixes, ParentOf(a)) <= 1
    ensures CountClashes(Repair(prefixes, a, true), ParentOf(a)) == 1
  {
    CountClashesPositiveIff(prefixes, ParentOf(a));
    if !HasCollision(prefixes, ParentOf(a)) {
      CountClashesAppend(prefixes, ParentOf(a), ParentOf(a));
    }
  }

  /** The create-if-absent step is idempotent: saving a second address with
      the same parent (same network, same VRF) changes nothing more. */
  lemma {:induction false} RepairIdempotent(prefixes: seq<Record>, a: Record, b: Record)
    requires ParentOf(a) == ParentOf(b)
    ensures Repair(Repair(prefixes, a, true), b, true) == Repair(prefixes, a, true)
  {
  }

  /** The number of Prefixes with the parent's network, across all VRFs,
      grows by one when the parent is missing in the address's partition and
      stays the same otherwise. */
  lemma {:induction false} RepairCountsNetwork(prefixes: seq<Record>, a: Record)
    ensures CountNetwork(Repair(prefixes, a, true), ParentOf(a).net) ==
      CountNetwork(prefixes, ParentOf(a).net) + (if HasCollision(prefixes, ParentOf(a)) then 0 else 1)
  {
    if !HasCollision(prefixes, ParentOf(a)) {
      CountNetworkAppend(prefixes, ParentOf(a), ParentOf(a).net);
    }
  }

  /** A Prefix the repair creates would itself pass `clean`: nothing equal
      exists in its partition, so creating it directly never makes a
      duplicate that admission would have refused. */
  lemma {:induction false} RepairedParentPassesClean(prefixes: seq<Record>, vrfs: VrfTable, enforceGlobalUnique: bool, a: Record)
    requires KnownScope(vrfs, a.vrf)
    requires Repair(prefixes, a, true) != prefixes
    ensures Clean(prefixes, vrfs, enforceGlobalUnique, ParentOf(a)) == Admitted
  {
  }

  /** Saving an address keeps the Prefix table unique under any policy. */
  lemma {:induction false} RepairPreservesUniqueness(prefixes: seq<Record>, vrfs: VrfTable, enforceGlobalUnique: bool, a: Record, autoPrefixCreate: bool)
    requires KnownScope(vrfs, a.vrf)
    requires UniqueUnder(prefixes, vrfs, enforceGlobalUnique)
    ensures UniqueUnder(Repair(prefixes, a, autoPrefixCreate), vrfs, enforceGlobalUnique)
  {
  }
}
