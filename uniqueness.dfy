/** The admission check `clean` of Prefix and IPAddress: a candidate is
    rejected as a duplicate only when its effective policy enforces
    uniqueness and a stored record of the same kind has an equal network
    value in the same partition (the same VRF, or both global). */
module Uniqueness {
  import opened Addressing

  /** Where a record lives: the global table (no VRF) or the VRF with this id. */
  datatype Scope = Global | InVrf(id: nat)

  /** A Prefix or an IPAddress as far as uniqueness is concerned: its network
      value (`Prefix.prefix`, or `IPAddress.address` with its host bits) and
      its VRF. */
  datatype Record = Record(net: Cidr, vrf: Scope)

  /** VRF id to that VRF's `enforce_unique` flag. */
  type VrfTable = map<nat, bool>

  datatype CleanError =
    | Duplicate(conflict: Record)  // an equal record in the same partition
    | UnknownVrf(id: nat)          // the candidate names a VRF that does not exist

  /** What `clean` does: return normally, or raise a validation error. */
  datatype Outcome = Admitted | Rejected(error: CleanError)

  datatype Option<T> = None | Some(value: T)

  /** The scope refers to nothing missing: global, or a VRF that exists. */
  predicate KnownScope(vrfs: VrfTable, s: Scope) {
    s.InVrf? ==> s.id in vrfs
  }

  /** The effective policy of a scope: that VRF's `enforce_unique` flag, or
      the ENFORCE_GLOBAL_UNIQUE setting for the global table. A VRF that does
      not exist enforces nothing. */
  predicate Enforced(vrfs: VrfTable, enforceGlobalUnique: bool, s: Scope)
    ensures Enforced(vrfs, enforceGlobalUnique, s) ==> KnownScope(vrfs, s)
  {
    match s
    case Global => enforceGlobalUnique
    case InVrf(id) => id in vrfs && vrfs[id]
  }

  /** Two records clash: exactly equal network values in the same partition.
      Overlapping but different networks never clash. */
  predicate Collides(a: Record, b: Record) {
    a.net == b.net && a.vrf == b.vrf
  }

  /** Some stored record clashes with `c`. */
  predicate HasCollision(existing: seq<Record>, c: Record) {
    exists i :: 0 <= i < |existing| && Collides(existing[i], c)
  }

  /** The duplicate query: the position of a stored record that clashes with
      `c`, if there is one. */
  function FindDuplicate(existing: seq<Record>, c: Record): (r: Option<nat>)
    ensures r.Some? ==> r.value < |existing| && Collides(existing[r.value], c)
    ensures r.None? ==> forall i :: 0 <= i < |existing| ==> !Collides(existing[i], c)
  {
    if existing == [] then None
    else if Collides(existing[0], c) then Some(0)
    else match FindDuplicate(existing[1..], c)
      case None => None
      case Some(k) => Some(k + 1)
  }

  /** `clean` for a candidate against the stored records of its own kind.
      A candidate in a known scope is rejected exactly when its effective
      policy enforces uniqueness and a stored record clashes with it; the
      error then names a clashing record. */
  function Clean(existing: seq<Record>, vrfs: VrfTable, enforceGlobalUnique: bool, c: Record): (r: Outcome)
    ensures !KnownScope(vrfs, c.vrf) ==> r == Rejected(UnknownVrf(c.vrf.id))
    ensures KnownScope(vrfs, c.vrf) ==>
      (r.Rejected? <==> Enforced(vrfs, enforceGlobalUnique, c.vrf) && HasCollision(existing, c))
    ensures r.Rejected? && r.error.Duplicate? ==>
      r.error.conflict in existing && Collides(r.error.conflict, c)
  {
    if !KnownScope(vrfs, c.vrf) then Rejected(UnknownVrf(c.vrf.id))
    else if !Enforced(vrfs, enforceGlobalUnique, c.vrf) then Admitted
    else match FindDuplicate(existing, c)
      case None => Admitted
      case Some(k) => Rejected(Duplicate(existing[k]))
  }

  /** Inside a VRF only the VRF's own flag matters, whatever the global
      setting says. */
  lemma VrfPolicyIgnoresGlobalSetting(existing: seq<Record>, vrfs: VrfTable, c: Record)
    requires c.vrf.InVrf?
    ensures Clean(existing, vrfs, true, c) == Clean(existing, vrfs, false, c)
  {
  }

  /** Records in other partitions never collide with the candidate, whatever
      the flags: a global record and a VRF record, or records of two
      different VRFs, with equal networks are both admitted. */
  lemma {:induction false} OtherPartitionsNeverCollide(existing: seq<Record>, vrfs: VrfTable, enforceGlobalUnique: bool, c: Record)
    requires KnownScope(vrfs, c.vrf)
    requires forall i :: 0 <= i < |existing| ==> existing[i].vrf != c.vrf
    ensures Clean(existing, vrfs, enforceGlobalUnique, c) == Admitted
  {
  }

  /** Once a record is stored, a second candidate equal to it in the same
      partition is rejected exactly when that partition enforces
      uniqueness; otherwise both are admitted. */
  lemma {:induction false} SecondAdmissionRejectedIffEnforced(existing: seq<Record>, vrfs: VrfTable, enforceGlobalUnique: bool, c: Record)
    requires KnownScope(vrfs, c.vrf)
    ensures Clean(existing + [c], vrfs, enforceGlobalUnique, c).Rejected? <==> Enforced(vrfs, enforceGlobalUnique, c.vrf)
    ensures Enforced(vrfs, enforceGlobalUnique, c.vrf) ==>
      Clean(existing + [c], vrfs, enforceGlobalUnique, c).error.Duplicate?
  {
    var s := existing + [c];
    assert Collides(s[|existing|], c);
  }

  /** The uniqueness invariant of a table: no two records clash in a
      partition whose policy enforces uniqueness. */
  ghost predicate UniqueUnder(s: seq<Record>, vrfs: VrfTable, enforceGlobalUnique: bool) {
    forall i, j :: 0 <= i < j < |s| && Collides(s[i], s[j]) ==> !Enforced(vrfs, enforceGlobalUnique, s[j].vrf)
  }

  /** Storing a candidate that `clean` admitted keeps the table unique. */
  lemma {:induction false} AdmissionPreservesUniqueness(s: seq<Record>, vrfs: VrfTable, enforceGlobalUnique: bool, c: Record)
    requires UniqueUnder(s, vrfs, enforceGlobalUnique)
    requires Clean(s, vrfs, enforceGlobalUnique, c) == Admitted
    ensures UniqueUnder(s + [c], vrfs, enforceGlobalUnique)
  {
  }
}
